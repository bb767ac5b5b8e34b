# docker-tally: the event debouncer and the regex map filter

docker-tally watches the Docker event stream and re-renders a text template
whenever the stream settles. This project models the two parts of `main.go`
that hold logic of their own, and proves what they promise:

- **`debounce`** turns a stream of Docker event messages into a sparser
  stream of "render now" emissions. Each event re-arms a quiet timer
  (`delay`). The first event of a batch arms a throttle timer (`throttle`),
  and later events never push it back. When either timer fires, the last
  event received is emitted and both timers are cleared. When the input
  channel closes, the goroutine returns and a pending event is dropped.
  The model (`debounce.dfy`) keeps the goroutine's local variables as a
  `State` value and as the fields of a `Debouncer` class. Timers are
  absolute deadlines. Time is a `nat` passed to each transition. A trace
  of actions (`Input`, `Tick`, `InputClosed`) is one order in which the
  goroutine's `select` takes its arms. When several arms are ready, Go
  picks one at random; each of its choices is one such order. The clock is
  read only where a trace has a `Tick`.
  `debounce_traces.dfy` proves properties of whole traces.
- **`pickReReplace` / `pickRe`** keep the entries of a string map whose key
  matches a regular expression, re-key each kept entry with
  `ReplaceAllString(k, repl)`, and keep the values. A pattern that does not
  compile gives an empty map. The model (`pick.dfy`) takes the regular
  expression engine as given: the outcome of `regexp.Compile` is an
  `Option<Regexp>`, and `MatchString` and `ReplaceAllString` are
  uninterpreted functions. Go iterates a map in no fixed order. The loop
  therefore picks any remaining key, and its postcondition does not depend
  on which key it picks.

Two behaviours of the code that the model keeps:

- `resetAndEmit` (main.go:154-157) clears only the timers. `lastEvent`
  keeps its value until the next event overwrites it, and so does the
  model. "Pending" is derived from it: there is a pending event exactly
  when the throttle timer is armed and the input is open.
- The code does not require `delay <= throttle`, and neither does the
  model. If `delay` is the longer one, the throttle deadline fires first.

## Model

| member | source | states |
|---|---|---|
| Debounce.Receive | main.go:161-168 | an event received while the input is open becomes the pending event; the quiet deadline is re-armed to `now + delay`, replacing any earlier one; the throttle deadline is armed to `now + throttle` only if none is armed, and is otherwise left unchanged; both timers end up armed together; after the input is closed, nothing changes |
| Debounce.Fire | main.go:154-173 | an emission happens only while the input is open and a timer is due; it carries exactly the pending event and leaves both timers cleared; without an emission nothing changes; a pending event is always emitted once its quiet or throttle deadline has passed |
| Debounce.CloseInput | main.go:161-164 | closing the input discards the pending event, and no later clock reading emits anything |
| Debounce.Run | main.go:159-174 | the `for`/`select` loop over a trace of actions gives exactly one output per action |
| Debounce.Debouncer.constructor | main.go:143-152 | the goroutine starts with the zero event, both timers nil and the input open |
| Debounce.Debouncer.OnInput | main.go:161-168 | receiving an event updates the fields exactly as `Receive` does, and keeps the two timers consistent |
| Debounce.Debouncer.OnTick | main.go:154-173 | a clock reading updates the fields and emits exactly as `Fire` does; any emission is the event that was pending |
| Debounce.Debouncer.OnClose | main.go:161-164 | closing the input updates the fields exactly as `CloseInput` does |
| Debounce.Debouncer.Drive | main.go:159-174 | running the loop over a trace ends in the state that `Run` gives and returns `Run`'s outputs |
| DebounceTraces.RunExplained | main.go:154-173 | along any trace that starts with no batch open, the timers stay consistent, every emission is explained by an input, and a pending event is the latest input with nothing emitted since |
| DebounceTraces.EmissionCarriesLatestInput | main.go:154-172 | every emission is a timer firing that carries the event of the most recent input, with no other input and no other emission in between (last event wins) |
| DebounceTraces.NoEmissionWithoutInput | main.go:147-172 | a trace without inputs emits nothing (no spontaneous emission) |
| DebounceTraces.OneEmissionPerBatch | main.go:154-172 | between any two emissions at least one input arrived: at most one emission per batch |
| DebounceTraces.StaysOpen | main.go:161-164 | only the closing of the input stops the debouncer |
| DebounceTraces.ThrottleFromInput | main.go:166-168 | an armed throttle deadline lies exactly `throttle` after some input of the trace |
| DebounceTraces.BatchStaysOpen | main.go:165-172 | after an input, and until the next emission, a batch stays open whose throttle deadline is at most `throttle` after that input: later inputs never push it back |
| DebounceTraces.ThrottleBoundsLatency | main.go:166-172 | under any stream of further events, an emission happens no later than the first clock reading at least `throttle` after an input (the latency bound under sustained churn) |
| DebounceTraces.BurstOpensBatch | main.go:161-172 | a burst (events mixed with clock readings, each reading before the latest event's quiet deadline and the first event's throttle deadline) emits nothing; it leaves the latest event pending, the quiet deadline `delay` after it and the throttle deadline `throttle` after the first event |
| DebounceTraces.BurstCollapses | main.go:161-172 | a burst followed by one more clock reading emits nothing during the burst; the final reading emits exactly when the latest event's quiet deadline or the first event's throttle deadline has passed, and then carries the latest event; a single event read before its quiet period ends is not emitted early |
| DebounceTraces.ClosedIsSilent | main.go:161-164 | once the input is closed, no action of any trace emits anything |
| Pick.PickReReplace | main.go:19-31 | an invalid pattern gives the empty map; otherwise every matching key's rewritten form is a key of the result, and every key of the result is the rewritten form of a matching input key and carries that key's value; the result has no more entries than the input; this holds for every iteration order |
| Pick.PickRe | main.go:33-35 | the result is a possible result of `pickReReplace` with `$0`; when `$0` rewrites every key to itself, the result is exactly the matching entries of the input |
| Pick.PickedWholeMatchIsFilter | main.go:33-35 | with the replacement `$0` rewriting every key to itself, any possible result is the restriction of the input to its matching keys |
| Pick.PickedIsUniqueWithoutCollisions | main.go:25-29 | when no two matching keys rewrite to the same key, all possible results are equal: iteration order matters only through collisions |

## Left out

- The Docker client closures in `TemplateClient.funcs` (main.go:41-141) are not part of this model. They are network calls that log errors and return empty values.
- `main` (main.go:180-238) is not part of this model. It covers environment variables, output file handling, template parsing and execution, and `log.Fatal`. This includes the startup render, which happens before the event subscription, and the truncate-and-rewrite on each emission.
- Goroutines, channels and `time.After` are replaced by explicit deadlines and actions. The blocking `output <- lastEvent` send is not modelled. While that send blocks, no input is consumed.
- Clock readings and order: the model reads the clock only where a trace has a `Tick`. A trace may therefore take an input after a timer was already due, with no `Tick` in between. Go would not do that: it sits in `select` and takes the timer as soon as it fires (main.go:159-172). The model's traces are a superset of Go's, so the safety lemmas (last event wins, one emission per batch, no spontaneous emission, silence after close) cover every Go run. The timing lemmas (`ThrottleBoundsLatency`, `BurstCollapses`) state when an emission happens relative to the `Tick`s of a trace, not relative to real time.
- Debounce.Debouncer.Drive: the Go goroutine returns when its input closes. `Drive` keeps stepping through the remaining actions, which then do nothing (`ClosedIsSilent`).
- Debounce.Policy: Go durations may be negative; `delay` and `throttle` are `nat` here. A non-positive `time.After` fires immediately, which a zero duration models.
- The regular expression engine (`regexp.Compile`, `MatchString`, `ReplaceAllString`) is not part of this model. It is a foreign library, taken as uninterpreted functions. Go's `$0` expansion is not modelled. The property that `$0` rewrites a matching key to itself is a stated hypothesis (`KeepsWholeMatch`), not a derived fact.
- Go maps are reference values. `pickReReplace` reads its argument and writes only to the fresh map `res`. In the model, maps are values, so leaving the input unchanged is automatic rather than proved.
