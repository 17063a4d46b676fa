/**
 The blocking tail engine (`Tail` in src/sync.rs).

 A producer thread pushes `(line, path)` pairs onto a shared buffer; `read_line`
 polls that buffer once per step and decides, iteration by iteration, whether to
 keep waiting, hand the collected batch back, or return the "timeout" or
 "signal" marker. Here the wall clock is an abstract natural number, the sleep
 advances it by at least one step, and everything the world does during one
 iteration (extra elapsed time, lines pushed by the producer, a pending
 interrupt) is one `Tick`.
 */
module SyncTail {
  import opened Wrappers
  import opened Seqs

  /** A line added to a watched file, paired with the path of that file. */
  datatype AddedLine = AddedLine(line: string, path: string)

  type Batch = seq<AddedLine>

  /** What `read_line` returns: the collected lines, or one of the two string markers. */
  datatype ReadResult = Data(batch: Batch) | Timeout | Signal

  /** The three millisecond arguments of `read_line`. */
  datatype Params = Params(debounceMs: nat, stepMs: nat, timeoutMs: nat)

  /** One loop iteration as seen from outside: time the sleep overran by, the lines
      the producer pushed meanwhile, and whether the interrupt check fails. */
  datatype Tick = Tick(delay: nat, appended: Batch, signal: bool)

  /** The clock and the `changes` buffer shared with the producer thread. */
  datatype Shared = Shared(clock: nat, buffer: Batch)

  /** The local state of one `read_line` call, between two iterations. */
  datatype Loop = Loop(shared: Shared, lastSize: nat, debounceDeadline: Option<nat>, timeoutDeadline: Option<nat>)

  datatype StepResult = Continue(next: Loop) | Return(result: ReadResult, after: Shared)

  /** A call either returned after `used` iterations or is still waiting once the ticks run out. */
  datatype RunResult = Returned(result: ReadResult, after: Shared, used: nat) | Pending(state: Loop)

  // ---------------------------------------------------------------------------
  // The shared buffer

  /** The producer's push of one line. */
  function Push(s: Shared, l: AddedLine): (r: Shared)
    ensures r.clock == s.clock
    ensures |r.buffer| == |s.buffer| + 1
    ensures r.buffer[..|s.buffer|] == s.buffer && r.buffer[|s.buffer|] == l
  {
    s.(buffer := s.buffer + [l])
  }

  /** The producer's pushes of several lines, one after the other. */
  function PushAll(s: Shared, ls: Batch): (r: Shared)
    ensures r.clock == s.clock
    ensures r.buffer == s.buffer + ls
    decreases |ls|
  {
    if ls == [] then s else PushAll(Push(s, ls[0]), ls[1..])
  }

  /** `clear` empties the buffer. */
  function Clear(s: Shared): (r: Shared)
    ensures r.clock == s.clock && r.buffer == []
  {
    s.(buffer := [])
  }

  // ---------------------------------------------------------------------------
  // One loop iteration

  /** The outer deadline: none when the timeout argument is zero, otherwise the
      clock at entry plus the timeout. */
  function TimeoutDeadline(p: Params, start: nat): (d: Option<nat>)
    ensures d.None? <==> p.timeoutMs == 0
    ensures d.Some? ==> d.value == start + p.timeoutMs
  {
    if p.timeoutMs == 0 then None else Some(start + p.timeoutMs)
  }

  /** The state in which the loop is entered. */
  function Start(p: Params, s: Shared): (l: Loop)
    ensures l.shared == s && l.lastSize == 0 && l.debounceDeadline.None?
    ensures l.timeoutDeadline == TimeoutDeadline(p, s.clock)
  {
    Loop(s, 0, None, TimeoutDeadline(p, s.clock))
  }

  /** The clock reading of an iteration: the sleep lasts at least one step. */
  function Now(p: Params, l: Loop, k: Tick): (now: nat)
  {
    l.shared.clock + p.stepMs + k.delay
  }

  /** The buffer as sampled by an iteration: everything pushed so far, in push
      order (see `PushAll`). */
  function Observed(l: Loop, k: Tick): (sample: Batch)
  {
    l.shared.buffer + k.appended
  }

  /** What an iteration samples is the shared state after the producer's pushes
      of that tick: the clock is the one reading of the iteration. */
  lemma ObservedIsPushed(p: Params, l: Loop, k: Tick)
    ensures Observed(l, k) == PushAll(l.shared, k.appended).buffer
    ensures |Observed(l, k)| == |l.shared.buffer| + |k.appended|
    ensures Observed(l, k)[..|l.shared.buffer|] == l.shared.buffer
    ensures Now(p, l, k) >= l.shared.clock + p.stepMs
  {
  }

  /** The rules of one iteration, as a relation between the state it starts
      from, what happened during it, and its outcome `r`. */
  predicate FollowsRules(p: Params, l: Loop, k: Tick, r: StepResult)
  {
    var now, sample := Now(p, l, k), Observed(l, k);
    // an interrupt wins before the buffer is looked at, and the buffer is dropped
    && (k.signal ==> r == Return(Signal, Shared(now, [])))
    && (r.Return? && r.result.Signal? ==> k.signal)
    // whatever is returned, the buffer is empty afterwards
    && (r.Return? ==> r.after == Shared(now, []))
    // a batch is never empty and is everything pushed, in push order
    && (r.Return? && r.result.Data? ==> r.result.batch == sample != [])
    // the timeout marker needs an empty sample strictly past the outer deadline
    && (r.Return? && r.result.Timeout? <==>
          !k.signal && sample == [] && l.timeoutDeadline.Some? && now > l.timeoutDeadline.value)
    // stability: the same non-zero size as the previous non-zero sample ends the wait
    && (!k.signal && sample != [] && |sample| == l.lastSize ==> r == Return(Data(sample), Shared(now, [])))
    // fixed ceiling: a growing buffer is returned exactly when a debounce
    // deadline is set and the clock is past it
    && (!k.signal && sample != [] && |sample| != l.lastSize ==>
          (r.Return? <==> l.debounceDeadline.Some? && now > l.debounceDeadline.value))
    // waiting on: the sample becomes the new state, the outer deadline stays
    && (r.Continue? ==>
          && r.next.shared == Shared(now, sample)
          && r.next.timeoutDeadline == l.timeoutDeadline
          && r.next.lastSize == (if sample == [] then l.lastSize else |sample|))
    // the debounce deadline is set once, at the first non-empty sample, and never moved
    && (r.Continue? && l.debounceDeadline.Some? ==> r.next.debounceDeadline == l.debounceDeadline)
    && (r.Continue? && l.debounceDeadline.None? ==>
          r.next.debounceDeadline == (if sample == [] then None else Some(now + p.debounceMs)))
  }

  /** One iteration of the loop: sleep, check for an interrupt, sample the buffer,
      decide; every way out goes through `clear`. */
  function Step(p: Params, l: Loop, k: Tick): (r: StepResult)
    ensures FollowsRules(p, l, k, r)
  {
    var now := Now(p, l, k);
    var buffer := Observed(l, k);
    var cleared := Clear(Shared(now, buffer));
    if k.signal then Return(Signal, cleared)
    else if |buffer| > 0 then
      if |buffer| == l.lastSize then Return(Data(buffer), cleared)
      else (
        match l.debounceDeadline
        case Some(d) =>
          if now > d then Return(Data(buffer), cleared)
          else Continue(l.(shared := Shared(now, buffer), lastSize := |buffer|))
        case None =>
          Continue(l.(shared := Shared(now, buffer), lastSize := |buffer|, debounceDeadline := Some(now + p.debounceMs))))
    else (
      match l.timeoutDeadline
      case Some(t) =>
        if now > t then Return(Timeout, cleared)
        else Continue(l.(shared := Shared(now, buffer)))
      case None =>
        Continue(l.(shared := Shared(now, buffer))))
  }

  /** The rules leave no choice: an outcome that follows them is the one `Step`
      computes. */
  lemma RulesDetermineStep(p: Params, l: Loop, k: Tick, r: StepResult)
    requires FollowsRules(p, l, k, r)
    ensures r == Step(p, l, k)
  {
    var s := Step(p, l, k);
    if r.Continue? {
      assert s.Continue?;
      assert r.next == s.next;
    }
  }

  /** What holds between iterations: a debounce deadline exists exactly when a
      non-empty sample was seen, and that sample is no larger than the buffer. */
  predicate Valid(l: Loop)
  {
    && (l.lastSize == 0 <==> l.debounceDeadline.None?)
    && l.lastSize <= |l.shared.buffer|
  }

  lemma StepKeepsValid(p: Params, l: Loop, k: Tick)
    requires Valid(l)
    ensures Valid(Start(p, l.shared))
    ensures Step(p, l, k).Continue? ==> Valid(Step(p, l, k).next)
  {
  }

  // ---------------------------------------------------------------------------
  // The loop

  /** Runs the loop over the given ticks, counting the iterations used. */
  function Run(p: Params, l: Loop, ticks: seq<Tick>): (r: RunResult)
    ensures r.Returned? ==> 1 <= r.used <= |ticks|
    decreases |ticks|
  {
    if ticks == [] then Pending(l)
    else (
      match Step(p, l, ticks[0])
      case Return(res, after) => Returned(res, after, 1)
      case Continue(next) =>
        match Run(p, next, ticks[1..])
        case Returned(res, after, used) => Returned(res, after, used + 1)
        case Pending(last) => Pending(last))
  }

  /** One `read_line` call on the shared state, over the ticks it may live through. */
  function ReadLine(p: Params, s: Shared, ticks: seq<Tick>): (r: RunResult)
  {
    Run(p, Start(p, s), ticks)
  }

  /** All lines pushed during the given ticks, in push order. */
  function Appended(ticks: seq<Tick>): (lines: Batch)
    decreases |ticks|
  {
    if ticks == [] then [] else ticks[0].appended + Appended(ticks[1..])
  }

  /** The time the given ticks take. */
  function Elapsed(p: Params, ticks: seq<Tick>): (ms: nat)
    decreases |ticks|
  {
    if ticks == [] then 0 else p.stepMs + ticks[0].delay + Elapsed(p, ticks[1..])
  }

  /** No tick of the sequence raises an interrupt. */
  predicate NoSignal(ticks: seq<Tick>)
  {
    forall i :: 0 <= i < |ticks| ==> !ticks[i].signal
  }

  lemma PrefixSplit(ticks: seq<Tick>, u: nat)
    requires 1 <= u <= |ticks|
    ensures ticks[..u] == [ticks[0]] + ticks[1..][..u - 1]
    ensures Appended(ticks[..u]) == ticks[0].appended + Appended(ticks[1..][..u - 1])
  {
    assert ticks[..u] == [ticks[0]] + ticks[1..][..u - 1];
    assert ticks[..u][1..] == ticks[1..][..u - 1];
  }

  lemma {:induction false} AppendedSplit(ticks: seq<Tick>, n: nat)
    requires n <= |ticks|
    ensures Appended(ticks) == Appended(ticks[..n]) + Appended(ticks[n..])
    decreases n
  {
    if n == 0 {
      assert ticks[..0] == [] && ticks[0..] == ticks;
    } else {
      var rest := ticks[1..];
      AppendedSplit(rest, n - 1);
      assert ticks[..n][0] == ticks[0] && ticks[..n][1..] == rest[..n - 1];
      assert rest[n - 1..] == ticks[n..];
      ConcatAssoc(ticks[0].appended, Appended(rest[..n - 1]), Appended(ticks[n..]));
    }
  }

  /** Splitting the ticks after an iteration that was not interrupted. */
  lemma SignalSplit(ticks: seq<Tick>, n: nat)
    requires 1 <= n <= |ticks|
    requires NoSignal(ticks[..n - 1]) && !ticks[n - 1].signal
    ensures NoSignal(ticks) <==> NoSignal(ticks[n..])
  {
    if NoSignal(ticks[n..]) {
      forall i | 0 <= i < |ticks| ensures !ticks[i].signal {
        if i < n - 1 {
          assert ticks[..n - 1][i] == ticks[i];
        } else if i >= n {
          assert ticks[n..][i - n] == ticks[i];
        }
      }
    }
    if NoSignal(ticks) {
      forall i | 0 <= i < |ticks[n..]| ensures !ticks[n..][i].signal {
        assert ticks[n..][i] == ticks[n + i];
      }
    }
  }

  /** The iteration that returns is the first one whose interrupt check fails, if any. */
  lemma {:induction false} RunSignal(p: Params, l: Loop, ticks: seq<Tick>)
    ensures Run(p, l, ticks).Returned? ==>
              var u := Run(p, l, ticks).used;
              && NoSignal(ticks[..u - 1])
              && (Run(p, l, ticks).result.Signal? <==> ticks[u - 1].signal)
    ensures Run(p, l, ticks).Pending? ==> NoSignal(ticks)
    decreases |ticks|
  {
    if ticks != [] {
      match Step(p, l, ticks[0])
      case Return(res, after) =>
      case Continue(next) =>
        RunSignal(p, next, ticks[1..]);
        var r := Run(p, next, ticks[1..]);
        if r.Returned? {
          assert ticks[..r.used] == [ticks[0]] + ticks[1..][..r.used - 1];
        } else {
          assert ticks == [ticks[0]] + ticks[1..];
        }
    }
  }

  lemma FirstTick(p: Params, ticks: seq<Tick>)
    requires ticks != []
    ensures Appended(ticks[..1]) == ticks[0].appended
    ensures Elapsed(p, ticks[..1]) == p.stepMs + ticks[0].delay
  {
    assert ticks[..1][1..] == [];
  }

  /** A batch is the buffer as the call found it followed by every line pushed
      during the call, in push order. */
  lemma {:induction false} RunData(p: Params, l: Loop, ticks: seq<Tick>)
    ensures Run(p, l, ticks).Returned? && Run(p, l, ticks).result.Data? ==>
              Run(p, l, ticks).result.batch == l.shared.buffer + Appended(ticks[..Run(p, l, ticks).used]) != []
    decreases |ticks|
  {
    if ticks != [] {
      FirstTick(p, ticks);
      match Step(p, l, ticks[0])
      case Return(res, after) =>
      case Continue(next) =>
        RunData(p, next, ticks[1..]);
        var r := Run(p, next, ticks[1..]);
        if r.Returned? {
          PrefixSplit(ticks, r.used + 1);
          ConcatAssoc(l.shared.buffer, ticks[0].appended, Appended(ticks[1..][..r.used]));
        }
    }
  }

  /** Whatever a call returns, the buffer is empty afterwards and the clock has
      advanced by the iterations it took. */
  lemma {:induction false} RunClears(p: Params, l: Loop, ticks: seq<Tick>)
    ensures Run(p, l, ticks).Returned? ==>
              Run(p, l, ticks).after == Shared(l.shared.clock + Elapsed(p, ticks[..Run(p, l, ticks).used]), [])
    decreases |ticks|
  {
    if ticks != [] {
      FirstTick(p, ticks);
      match Step(p, l, ticks[0])
      case Return(res, after) =>
      case Continue(next) =>
        RunClears(p, next, ticks[1..]);
        var r := Run(p, next, ticks[1..]);
        if r.Returned? {
          PrefixSplit(ticks, r.used + 1);
          assert ticks[..r.used + 1][1..] == ticks[1..][..r.used];
        }
    }
  }

  /** A call still waiting holds every line pushed so far, in push order. */
  lemma {:induction false} RunPending(p: Params, l: Loop, ticks: seq<Tick>)
    ensures Run(p, l, ticks).Pending? ==>
              Run(p, l, ticks).state.shared ==
                Shared(l.shared.clock + Elapsed(p, ticks), l.shared.buffer + Appended(ticks))
    decreases |ticks|
  {
    if ticks != [] {
      match Step(p, l, ticks[0])
      case Return(res, after) =>
      case Continue(next) =>
        RunPending(p, next, ticks[1..]);
        assert next.shared == Shared(Now(p, l, ticks[0]), Observed(l, ticks[0]));
        if Run(p, next, ticks[1..]).Pending? {
          assert Run(p, l, ticks) == Run(p, next, ticks[1..]);
          assert Elapsed(p, ticks) == p.stepMs + ticks[0].delay + Elapsed(p, ticks[1..]);
          assert Appended(ticks) == ticks[0].appended + Appended(ticks[1..]);
          ConcatAssoc(l.shared.buffer, ticks[0].appended, Appended(ticks[1..]));
        }
    }
  }

  /** The timeout marker only comes back when nothing at all was in the buffer or
      pushed during the call, and the clock is strictly past the outer deadline. */
  lemma {:induction false} RunTimeout(p: Params, l: Loop, ticks: seq<Tick>)
    requires Valid(l)
    ensures Run(p, l, ticks).Returned? && Run(p, l, ticks).result.Timeout? ==>
              var u := Run(p, l, ticks).used;
              && l.shared.buffer == [] && Appended(ticks[..u]) == []
              && l.timeoutDeadline.Some?
              && l.shared.clock + Elapsed(p, ticks[..u]) > l.timeoutDeadline.value
    decreases |ticks|
  {
    if ticks != [] {
      var k := ticks[0];
      FirstTick(p, ticks);
      match Step(p, l, k)
      case Return(res, after) =>
      case Continue(next) =>
        StepKeepsValid(p, l, k);
        RunTimeout(p, next, ticks[1..]);
        var r := Run(p, next, ticks[1..]);
        if r.Returned? && r.result.Timeout? {
          PrefixSplit(ticks, r.used + 1);
          assert ticks[..r.used + 1][1..] == ticks[1..][..r.used];
        }
    }
  }

  /** With a zero timeout argument there is no outer deadline, so a call never
      returns the timeout marker. */
  lemma NoTimeoutWhenUnbounded(p: Params, s: Shared, ticks: seq<Tick>)
    requires p.timeoutMs == 0
    ensures !(ReadLine(p, s, ticks).Returned? && ReadLine(p, s, ticks).result.Timeout?)
  {
    RunTimeout(p, Start(p, s), ticks);
  }

  /** Once an iteration has seen a non-empty buffer, the buffer only grows, so the
      call can no longer end in the timeout marker. */
  lemma NoTimeoutAfterData(p: Params, l: Loop, ticks: seq<Tick>)
    requires Valid(l) && l.lastSize > 0
    ensures !(Run(p, l, ticks).Returned? && Run(p, l, ticks).result.Timeout?)
  {
    RunTimeout(p, l, ticks);
  }

  /** While the call waits, the debounce deadline, once set, stays where it was set. */
  lemma {:induction false} DeadlineNeverMoves(p: Params, l: Loop, ticks: seq<Tick>)
    requires l.debounceDeadline.Some?
    ensures Run(p, l, ticks).Pending? ==> Run(p, l, ticks).state.debounceDeadline == l.debounceDeadline
    decreases |ticks|
  {
    if ticks != [] {
      match Step(p, l, ticks[0])
      case Return(_, _) =>
      case Continue(next) => DeadlineNeverMoves(p, next, ticks[1..]);
    }
  }

  /** What one `read_line` call promises, in terms of the ticks it lived through:
      it returns at the first interrupt or earlier; a batch is the buffer followed
      by everything pushed during the call; the timeout marker means nothing was
      there at all; the buffer is empty afterwards; a call still waiting has seen
      no interrupt and holds every line pushed. The clock afterwards is the
      entry clock plus the iterations taken, and the timeout marker comes only
      once more than the timeout has passed. */
  lemma ReadLineSpec(p: Params, s: Shared, ticks: seq<Tick>)
    ensures ReadLine(p, s, ticks).Pending? ==>
              && NoSignal(ticks)
              && ReadLine(p, s, ticks).state.shared.buffer == s.buffer + Appended(ticks)
    ensures ReadLine(p, s, ticks).Returned? ==>
              var r := ReadLine(p, s, ticks);
              && r.after == Shared(s.clock + Elapsed(p, ticks[..r.used]), [])
              && NoSignal(ticks[..r.used - 1])
              && (r.result.Signal? <==> ticks[r.used - 1].signal)
              && (r.result.Data? ==> r.result.batch == s.buffer + Appended(ticks[..r.used]))
              && (r.result.Timeout? ==>
                    && s.buffer == [] && Appended(ticks[..r.used]) == []
                    && 0 < p.timeoutMs < Elapsed(p, ticks[..r.used]))
  {
    var l := Start(p, s);
    RunPending(p, l, ticks);
    RunData(p, l, ticks);
    RunClears(p, l, ticks);
    RunSignal(p, l, ticks);
    RunTimeout(p, l, ticks);
  }

  // ---------------------------------------------------------------------------
  // Liveness

  /** A state from which the call is bound to return: the clock advances, and
      either a debounce deadline is set and not yet passed, or there is an outer
      deadline not yet passed. */
  predicate Live(p: Params, l: Loop)
  {
    && Valid(l)
    && p.stepMs > 0
    && (l.debounceDeadline.Some? ==> l.shared.clock <= l.debounceDeadline.value)
    && (l.debounceDeadline.None? ==> l.timeoutDeadline.Some? && l.shared.clock <= l.timeoutDeadline.value)
  }

  /** Time still available before the call must return: up to the debounce
      deadline once one is set, otherwise up to the outer deadline plus a full
      debounce window. */
  function Budget(p: Params, l: Loop): (b: int)
    requires l.debounceDeadline.Some? || l.timeoutDeadline.Some?
  {
    match l.debounceDeadline
    case Some(d) => d - l.shared.clock + p.stepMs
    case None => l.timeoutDeadline.value - l.shared.clock + p.debounceMs + 2 * p.stepMs
  }

  lemma StepSpendsBudget(p: Params, l: Loop, k: Tick)
    requires Live(p, l)
    ensures Budget(p, l) >= p.stepMs
    ensures Step(p, l, k).Continue? ==>
              Live(p, Step(p, l, k).next) && Budget(p, Step(p, l, k).next) <= Budget(p, l) - p.stepMs
  {
  }

  lemma {:induction false} ReturnsWithinBudget(p: Params, l: Loop, ticks: seq<Tick>)
    requires Live(p, l)
    requires |ticks| * p.stepMs >= Budget(p, l)
    ensures Run(p, l, ticks).Returned?
    decreases |ticks|
  {
    StepSpendsBudget(p, l, if ticks == [] then Tick(0, [], false) else ticks[0]);
    assert ticks != [];
    match Step(p, l, ticks[0])
    case Return(_, _) =>
    case Continue(next) =>
      assert |ticks[1..]| * p.stepMs == |ticks| * p.stepMs - p.stepMs;
      ReturnsWithinBudget(p, next, ticks[1..]);
  }

  /** With a positive step and a positive timeout a call always returns: within
      enough iterations to cover the timeout, one debounce window and two steps. */
  lemma ReadLineReturns(p: Params, s: Shared, ticks: seq<Tick>)
    requires p.stepMs > 0 && p.timeoutMs > 0
    requires |ticks| * p.stepMs >= p.timeoutMs + p.debounceMs + 2 * p.stepMs
    ensures ReadLine(p, s, ticks).Returned?
  {
    ReturnsWithinBudget(p, Start(p, s), ticks);
  }

  /** Once the first change has been seen, a call returns within the debounce
      window and one more step, whether or not there is an outer deadline: the
      debounce argument bounds the time changes are grouped over. */
  lemma ReturnsAfterFirstChange(p: Params, l: Loop, ticks: seq<Tick>)
    requires Valid(l) && p.stepMs > 0 && l.debounceDeadline.Some?
    requires l.shared.clock <= l.debounceDeadline.value
    requires |ticks| * p.stepMs >= l.debounceDeadline.value - l.shared.clock + p.stepMs
    ensures Run(p, l, ticks).Returned?
  {
    ReturnsWithinBudget(p, l, ticks);
  }

  /** A tick in which nothing happens: no line is pushed and no interrupt is pending. */
  predicate Quiet(k: Tick)
  {
    k.appended == [] && !k.signal
  }

  /** Without an outer deadline, with nothing in the buffer and nothing pushed, a
      call keeps waiting however many iterations pass. */
  lemma {:induction false} WaitsForeverWhenUnbounded(p: Params, l: Loop, ticks: seq<Tick>)
    requires l.timeoutDeadline.None? && l.shared.buffer == [] && l.lastSize == 0
    requires forall i :: 0 <= i < |ticks| ==> Quiet(ticks[i])
    ensures Run(p, l, ticks).Pending?
    decreases |ticks|
  {
    if ticks != [] {
      assert Quiet(ticks[0]);
      var next := Step(p, l, ticks[0]).next;
      assert forall i :: 0 <= i < |ticks[1..]| ==> Quiet(ticks[1..][i]) by {
        forall i | 0 <= i < |ticks[1..]| ensures Quiet(ticks[1..][i]) {
          assert ticks[1..][i] == ticks[i + 1];
        }
      }
      WaitsForeverWhenUnbounded(p, next, ticks[1..]);
    }
  }

  // ---------------------------------------------------------------------------
  // The loop as written

  /** One pass through the body of the `read_line` loop, written with the
      source's local variables; it follows the rules of an iteration. */
  method Iteration(p: Params, l: Loop, k: Tick) returns (r: StepResult)
    ensures FollowsRules(p, l, k, r)
  {
    var maxDebounceTime := l.debounceDeadline;
    var lastSize := l.lastSize;
    var clock := l.shared.clock + p.stepMs + k.delay;
    var buffer := l.shared.buffer + k.appended;
    if k.signal {
      return Return(Signal, Shared(clock, []));
    }
    var size := |buffer|;
    if size > 0 {
      if size == lastSize {
        return Return(Data(buffer), Shared(clock, []));
      }
      lastSize := size;
      match maxDebounceTime {
        case Some(maxTime) =>
          if clock > maxTime {
            return Return(Data(buffer), Shared(clock, []));
          }
        case None =>
          maxDebounceTime := Some(clock + p.debounceMs);
      }
    } else if l.timeoutDeadline.Some? && clock > l.timeoutDeadline.value {
      return Return(Timeout, Shared(clock, []));
    }
    r := Continue(Loop(Shared(clock, buffer), lastSize, maxDebounceTime, l.timeoutDeadline));
  }

  /** `read_line` as the loop it is; it agrees with the step model on every tick sequence. */
  method ReadLineLoop(p: Params, s: Shared, ticks: seq<Tick>) returns (r: RunResult)
    ensures r == ReadLine(p, s, ticks)
    ensures r.Returned? && r.result.Data? ==> r.result.batch != [] && r.after.buffer == []
  {
    var maxTimeoutTime: Option<nat> := if p.timeoutMs == 0 then None else Some(s.clock + p.timeoutMs);
    var l := Loop(s, 0, None, maxTimeoutTime);
    var i := 0;
    while i < |ticks|
      invariant 0 <= i <= |ticks|
      invariant Offset(Run(p, l, ticks[i..]), i) == ReadLine(p, s, ticks)
      decreases |ticks| - i
    {
      assert ticks[i..][1..] == ticks[i + 1..];
      RunUnfold(p, l, ticks[i..]);
      var step := Iteration(p, l, ticks[i]);
      RulesDetermineStep(p, l, ticks[i], step);
      match step {
        case Return(result, after) =>
          return Returned(result, after, i + 1);
        case Continue(next) =>
          l := next;
      }
      i := i + 1;
    }
    r := Pending(l);
  }

  /** The first iteration of a run, and the rest of the run after it. */
  lemma RunUnfold(p: Params, l: Loop, ticks: seq<Tick>)
    requires ticks != []
    ensures Step(p, l, ticks[0]).Return? ==>
              Run(p, l, ticks) == Returned(Step(p, l, ticks[0]).result, Step(p, l, ticks[0]).after, 1)
    ensures Step(p, l, ticks[0]).Continue? ==>
              Run(p, l, ticks) == Offset(Run(p, Step(p, l, ticks[0]).next, ticks[1..]), 1)
  {
  }

  /** Shifts the iteration count of a result by the iterations already done. */
  function Offset(r: RunResult, done: nat): (o: RunResult)
    ensures o.Returned? <==> r.Returned?
    ensures o.Returned? ==> o.used == r.used + done && o.result == r.result && o.after == r.after
    ensures o.Pending? ==> o == r
  {
    match r
    case Returned(res, after, used) => Returned(res, after, used + done)
    case Pending(_) => r
  }
}
