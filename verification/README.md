# Span-to-metrics bridge: a Dafny model

This project models the tracing layer of `metrics-tracing-test`. The layer watches the
lifecycle of tracing spans and turns it into metrics. Each span carries a small record
(`MetricData`) that counts how often the span was entered. The record also latches the
clock reading of the first enter and keeps the reading of the last exit. When the span
closes, the record is flushed. A span that was entered at least once emits two metrics:

- a counter named `<target>_<name>`, whose value is the enter count;
- a timing named `<target>_<name>_ns`, covering the first enter to the last exit.

Every `::` in the target becomes `_` in these names.

Modules:

- `Base` (`base.dfy`): Rust's `u64` as a newtype, and `Option`.
- `Names` (`names.dfy`): the target rewrite `ReplaceColons` (Rust's `str::replace("::", "_")`)
  and the two metric names. `Split` and `Join` give an independent description of the rewrite.
  Cutting a string at its separators, leftmost first and never overlapping, gives the unique
  well-formed list of pieces. Gluing those pieces back with `::` returns the input. Gluing them
  with `_` gives the rewrite.
- `SpanMetrics` (`metric_data.dfy`): the `MetricData` record, `MarkEntered`, `MarkExited` and
  `Flush`. It also has traces of enter/exit marks on one span, with reference definitions
  (`CountEnters`, `FirstEnter`, `LastExit`) for the state they leave.
- `Layer` (`layer.dfy`): the `Layer` callbacks over an abstract registry. The registry is a map
  from live span id to the span's metadata and its `MetricData` extension. Emitted metrics are
  appended to a log. Traces of callbacks are run by `Run`, and `None` stands for a panic.

Panics in the source become preconditions. This covers the `expect`s of `on_enter`, `on_exit`
and `on_close` on a missing span or missing metric data, `unwrap` on a missing timestamp in
`flush`, and overflow of the `u64` enter counter. The `expect` of `new_span` is taken to succeed
(see "Left out").
In a trace, an unmet precondition makes `Run` return `None`.

Behaviour of the code worth noting:

- The first enter time is latched, and a re-entry does not move it.
- An unknown or closed span id panics.
- Close emits only the counter and the timing.
- An exit without an enter still records the exit time. Because the counter is zero, close then
  emits nothing.
- Span state lives in the registry's per-span extensions. There is no slot table and no
  `handle = slot + 1` allocator.

## Model

| member | source | states |
|---|---|---|
| `Names.ReplaceColons` | src/layer.rs:38 | the rewritten target never contains `::`, is no longer than the target, equals it when the target has no `::`, and starts with `:` only if the target does |
| `Names.JoinSplit` | src/layer.rs:38 | cutting a target at its `::` separators and gluing the pieces back with `::` returns the target |
| `Names.ReplaceIsJoinOfSplit` | src/layer.rs:38 | the rewrite equals the separator-free pieces of the target joined with `_` |
| `Names.SplitWellFormed` | src/layer.rs:38 | no piece contains `::`, and no piece but the last ends in `:`, because matches are taken leftmost first and never overlap |
| `Names.SplitJoin` | src/layer.rs:38 | every well-formed list of pieces is recovered by splitting its `::`-join, so the decomposition is unique |
| `Names.ReplaceAtFirstSep` | src/layer.rs:38 | the rewrite works left to right: a leading separator-free piece is kept and the first `::` after it becomes `_` |
| `Names.CounterName` | src/layer.rs:38-40 | the counter name is the rewritten target, then `_`, then the span name, and is the target itself plus `_<name>` when the target has no `::` |
| `Names.TimingName` | src/layer.rs:38-42 | the timing name is the counter name followed by `_ns` |
| `Names.PlainTargetName` | src/layer.rs:38-42 | a target without `::` passes through unchanged: the names are `<target>_<name>` and `<target>_<name>_ns` |
| `Names.NamespacedTargetName` | src/layer.rs:38-42 | a target `a::b` yields the names `a_b_<name>` and `a_b_<name>_ns` |
| `SpanMetrics.Fresh` | src/layer.rs:13-23 | the default record has count 0 and no enter or exit time |
| `SpanMetrics.MarkEntered` | src/layer.rs:26-31 | the count grows by exactly one and the exit time is untouched; the first enter time is latched once and kept on every later enter; a counter at `u64` max panics |
| `SpanMetrics.MarkExited` | src/layer.rs:33-35 | the exit time becomes `now` on every call, overwriting the old one; the count and enter time are untouched |
| `SpanMetrics.MarksPreserveConsistent` | src/layer.rs:19-35 | both transitions keep "count > 0 iff an enter time is latched" |
| `SpanMetrics.Flush` | src/layer.rs:37-47 | count 0 emits nothing and leaves the record alone; otherwise the counter (value = count) comes first, then the timing (first enter, last exit), and both timestamps are taken while the count stays; a missing timestamp panics |
| `SpanMetrics.ApplySummary` | src/layer.rs:26-35 | after any enter/exit sequence: count = old count + number of enters; enter time = old latch, else the first enter; exit time = the last exit, else the old one |
| `SpanMetrics.ConsistentFromFresh` | src/layer.rs:19-35 | from the default record, every enter/exit sequence keeps "count > 0 iff an enter time is latched" |
| `SpanMetrics.FlushAfterMarks` | src/layer.rs:26-47 | closing after a sequence emits nothing if it had no enter; otherwise it emits the number of enters and the first-enter/last-exit window; entered but never exited panics |
| `SpanMetrics.TimingWindowOrdered` | src/layer.rs:26-35 | with a monotonic clock and some exit after some enter, the timing start is never after its end |
| `SpanMetrics.ExitBeforeEnterReversesWindow` | src/layer.rs:26-45 | exit at 5 then enter at 10 is monotonic, yet flushes the reversed timing window (10, 5) with count 1 |
| `SpanMetrics.ReentryKeepsFirstEnter` | src/layer.rs:26-45 | enter at 10, enter at 20, exit at 30 gives count 2 and the timing window (10, 30) |
| `Layer.NewSpan` | src/layer.rs:54-58 | the new span carries exactly the default record; no other span changes and nothing is emitted |
| `Layer.OnEnter` | src/layer.rs:64-71 | applies `mark_entered` to that span's record only; an unknown span panics; nothing is emitted |
| `Layer.OnExit` | src/layer.rs:73-81 | applies `mark_exited` to that span's record only; an unknown span panics; nothing is emitted |
| `Layer.OnClose` | src/layer.rs:83-90 | appends exactly the flush emissions of that span under its own metadata, and the span leaves the registry; other spans are untouched |
| `Layer.Step` | src/layer.rs:54-90 | `on_record` and `on_event` change nothing; only close emits; the emission log only grows |
| `Layer.RunOnlyAppends` | src/layer.rs:54-90 | along any trace that does not panic, earlier emissions are never lost or reordered |
| `Layer.RunDeliver` | src/layer.rs:64-81 | enters and exits delivered to one live span update that span's record as the marks say and touch nothing else |
| `Layer.SpanLifecycle` | src/layer.rs:54-90 | create, then enters/exits, then close: the registry returns to its old contents, and the log gains nothing (never entered) or exactly [counter = number of enters, timing (first enter, last exit)]; entered but never exited panics |
| `Layer.ClosedSpanIsGone` | src/layer.rs:64-88 | after close, an enter, exit or close on the same id panics in the span lookup |
| `Layer.ReusedIdStartsFresh` | src/layer.rs:54-57 | an id created again after close starts from the default record, with none of the old state |
| `Layer.ShaveScenario` | src/layer.rs:54-90 | span `app`/`shave` entered at 100, exited at 250 and closed emits counter `app_shave` = 1 and timing `app_shave_ns` (100, 250), and leaves no live span |

## Left out

- `src/main.rs` as a whole. It holds a printing recorder, a demo workload, and the installation of
  a process-wide recorder and subscriber. `thingy`, which it uses, is not part of this model.
- The `quanta` clock. Clock readings are `u64` parameters of `OnEnter`, `OnExit` and the marks.
  `on_exit` reads the clock before the span lookup and `on_enter` reads it after. That ordering
  cannot be observed once readings are parameters.
- The `metrics` macros and the recorder behind them. `counter!` and `timing!` become `Counter` and
  `Timing` entries appended to the emission log. The recorder receives a single `u64` per timing
  (`record_histogram`, src/main.rs:23); how it aggregates is not modelled.
- The `tracing_subscriber` registry. Span lookup, `extensions_mut` locking and concurrent
  callbacks on different threads are foreign to this code. They are abstracted as one map and
  sequential traces.
- Layer.OnClose: the record is removed from the map as part of close. This stands for the
  registry dropping the span and its extensions after the layer's `on_close` returns. In the
  source itself, the flushed record stays attached until then.
- Layer.NewSpan: `extensions_mut().insert` at src/layer.rs:57 panics when a `MetricData` is
  already attached to the span. The model overwrites the record instead. The registry calls
  `new_span` only for a span id it has just created, which carries no extension yet. A
  `NewSpanCall` stands for that creation as well, so the span lookup `expect` at src/layer.rs:56
  is taken to succeed and `NewSpan` has no precondition.
- SpanMetrics.MarkEntered: overflow of `enter_count += 1` is modelled as a panic, which is what
  a build with overflow checks does. A release build would wrap the counter to 0 instead; that
  is not modelled.
- SpanMetrics.Flush: `timing!` reduces the window `(start, end)` to one `u64` duration while it
  expands inside `flush` (src/layer.rs:41-45), before anything reaches the recorder. The model
  keeps both readings in `Timing` and does not model that reduction. The `metrics` crate that
  defines the macro is not part of this model; the reduction is taken to be the `u64` subtraction
  of start from end. On a reversed window such as (10, 5) in `ExitBeforeEnterReversesWindow` that
  subtraction underflows. With overflow checks, which `MarkEntered` already assumes, this is a
  panic. In a release build the value wraps.
- SpanMetrics.Flush: when the `unwrap` of the exit time panics, the counter emitted just before
  it has already reached the sink. The model states the panic as a precondition, so that
  partial emission is not modelled.
- Span ids are taken as given, as the registry hands them out. The uniqueness of live ids and
  their reuse after close belong to the registry.
