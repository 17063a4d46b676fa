/**
 The blocking generator `tail` (async_tail/main.py) on top of the engine.

 `tail` calls `read_line` over and over with the same three timing arguments and
 turns each result into an action: a batch is yielded as it is, the "timeout"
 marker becomes an empty batch or a silent retry, and the "signal" marker either
 raises `KeyboardInterrupt` or ends the generator. The adapter is modelled as a
 pure function from the sequence of `read_line` results to what the generator
 yields and how it ends; a session then feeds it the results of consecutive
 engine calls over one stream of ticks.
 */
module TailGenerator {
  import opened Seqs
  import opened SyncTail

  /** The keyword arguments of `tail`. */
  datatype Options = Options(debounce: nat, step: nat, rustTimeout: nat, yieldOnTimeout: bool, raiseInterrupt: bool)

  /** The defaults `tail` declares. */
  const Defaults := Options(1600, 50, 5000, false, true)

  /** The arguments every `read_line` call of one generator receives. */
  function ReadParams(o: Options): Params
  {
    Params(o.debounce, o.step, o.rustTimeout)
  }

  /** What the generator does with one result. */
  datatype Action = Yield(batch: Batch) | Retry | Raise | Stop

  /** How the generator ended: `KeyboardInterrupt` raised, a plain return, or
      not at all (it is still waiting for the next result). */
  datatype Ending = Interrupted | Stopped | Running

  /** The batches yielded, in order, how the generator ended, and how many
      `read_line` results it consumed. */
  datatype Trace = Trace(yielded: seq<Batch>, ending: Ending, calls: nat)

  /** The dispatch on one `read_line` result. */
  function Dispatch(o: Options, r: ReadResult): (a: Action)
    // a batch is yielded for data, and for a timeout only when asked for
    ensures a.Yield? <==> r.Data? || (r.Timeout? && o.yieldOnTimeout)
    ensures a.Yield? ==> a.batch == BatchOf(r)
    // only the "signal" marker ends the generator, by raising exactly when asked to
    ensures (a.Raise? || a.Stop?) <==> r.Signal?
    ensures a.Raise? <==> r.Signal? && o.raiseInterrupt
  {
    match r
    case Data(batch) => Yield(batch)
    case Timeout => if o.yieldOnTimeout then Yield([]) else Retry
    case Signal => if o.raiseInterrupt then Raise else Stop
  }

  /** The generator's loop over a sequence of `read_line` results. */
  function Drive(o: Options, rs: seq<ReadResult>): (t: Trace)
    ensures t.calls <= |rs|
    ensures t.ending == Running ==> t.calls == |rs|
    ensures t.ending != Running ==> 0 < t.calls && rs[t.calls - 1].Signal?
    decreases |rs|
  {
    if rs == [] then Trace([], Running, 0)
    else
      match Dispatch(o, rs[0])
      case Yield(b) =>
        var t := Drive(o, rs[1..]);
        Trace([b] + t.yielded, t.ending, t.calls + 1)
      case Retry =>
        var t := Drive(o, rs[1..]);
        t.(calls := t.calls + 1)
      case Raise => Trace([], Interrupted, 1)
      case Stop => Trace([], Stopped, 1)
  }

  /** No result of the sequence is the "signal" marker. */
  predicate NoSignalResult(rs: seq<ReadResult>)
  {
    forall i :: 0 <= i < |rs| ==> !rs[i].Signal?
  }

  /** The generator ends exactly at the first "signal" marker, raising or
      returning as `raise_interrupt` says; without one it keeps reading. */
  lemma {:induction false} DriveEndsAtFirstSignal(o: Options, rs: seq<ReadResult>)
    ensures NoSignalResult(rs) ==> Drive(o, rs).ending == Running
    ensures !NoSignalResult(rs) ==>
              && NoSignalResult(rs[..Drive(o, rs).calls - 1])
              && Drive(o, rs).ending == (if o.raiseInterrupt then Interrupted else Stopped)
    decreases |rs|
  {
    if rs != [] {
      DriveEndsAtFirstSignal(o, rs[1..]);
      if !rs[0].Signal? {
        var t := Drive(o, rs[1..]);
        if NoSignalResult(rs[1..]) {
          assert NoSignalResult(rs) by {
            forall i | 0 <= i < |rs| ensures !rs[i].Signal? {
              if i > 0 { assert rs[i] == rs[1..][i - 1]; }
            }
          }
        } else {
          assert !NoSignalResult(rs) by {
            var j :| 0 <= j < |rs[1..]| && rs[1..][j].Signal?;
            assert rs[j + 1] == rs[1..][j];
          }
          assert rs[..t.calls] == [rs[0]] + rs[1..][..t.calls - 1];
        }
      } else {
        assert !NoSignalResult(rs) by { assert rs[0].Signal?; }
      }
    }
  }

  /** Whatever follows the first "signal" marker is never read. */
  lemma {:induction false} NothingAfterSignal(o: Options, rs: seq<ReadResult>, rest: seq<ReadResult>)
    requires !NoSignalResult(rs)
    ensures Drive(o, rs + rest) == Drive(o, rs)
    decreases |rs|
  {
    assert rs != [];
    assert (rs + rest)[0] == rs[0];
    if !rs[0].Signal? {
      assert !NoSignalResult(rs[1..]) by {
        var j :| 0 <= j < |rs| && rs[j].Signal?;
        assert j > 0 && rs[1..][j - 1] == rs[j];
      }
      assert (rs + rest)[1..] == rs[1..] + rest;
      NothingAfterSignal(o, rs[1..], rest);
    }
  }

  /** Results without a "signal" marker only add their yields in front of what
      follows: one read per result, nothing reordered. */
  lemma {:induction false} DriveAppend(o: Options, rs: seq<ReadResult>, rest: seq<ReadResult>)
    requires NoSignalResult(rs)
    ensures Drive(o, rs + rest) ==
              Trace(Drive(o, rs).yielded + Drive(o, rest).yielded, Drive(o, rest).ending, |rs| + Drive(o, rest).calls)
    decreases |rs|
  {
    if rs == [] {
      assert rs + rest == rest;
    } else {
      assert (rs + rest)[0] == rs[0] && !rs[0].Signal?;
      assert (rs + rest)[1..] == rs[1..] + rest;
      assert NoSignalResult(rs[1..]) by {
        forall i | 0 <= i < |rs[1..]| ensures !rs[1..][i].Signal? {
          assert rs[1..][i] == rs[i + 1];
        }
      }
      DriveAppend(o, rs[1..], rest);
      DriveEndsAtFirstSignal(o, rs[1..]);
      var a := Dispatch(o, rs[0]);
      if a.Yield? {
        ConcatAssoc([a.batch], Drive(o, rs[1..]).yielded, Drive(o, rest).yielded);
      }
    }
  }

  /** The batch a data or timeout result turns into when timeouts are yielded. */
  function BatchOf(r: ReadResult): (b: Batch)
  {
    if r.Data? then r.batch else []
  }

  /** With `yield_on_timeout`, every result before the first "signal" marker is
      yielded, one batch per `read_line` call: the data unchanged, a timeout as `[]`. */
  lemma {:induction false} YieldsEveryResult(o: Options, rs: seq<ReadResult>)
    requires o.yieldOnTimeout
    ensures var t := Drive(o, rs);
            && |t.yielded| == (if t.ending == Running then t.calls else t.calls - 1)
            && forall i :: 0 <= i < |t.yielded| ==> t.yielded[i] == BatchOf(rs[i])
    decreases |rs|
  {
    if rs != [] {
      YieldsEveryResult(o, rs[1..]);
      var t := Drive(o, rs[1..]);
      if !rs[0].Signal? {
        forall i | 1 <= i < |t.yielded| + 1
          ensures ([BatchOf(rs[0])] + t.yielded)[i] == BatchOf(rs[i])
        {
          assert rs[1..][i - 1] == rs[i];
        }
      }
    }
  }

  /** The payloads of the data results, in order. */
  function DataBatches(rs: seq<ReadResult>): (bs: seq<Batch>)
    decreases |rs|
  {
    if rs == [] then []
    else if rs[0].Data? then [rs[0].batch] + DataBatches(rs[1..])
    else DataBatches(rs[1..])
  }

  lemma {:induction false} DataBatchesAppend(a: seq<ReadResult>, b: seq<ReadResult>)
    ensures DataBatches(a + b) == DataBatches(a) + DataBatches(b)
    decreases |a|
  {
    if a == [] {
      assert a + b == b;
    } else {
      assert (a + b)[0] == a[0];
      assert (a + b)[1..] == a[1..] + b;
      DataBatchesAppend(a[1..], b);
    }
  }

  /** Without `yield_on_timeout`, exactly the data results are yielded, in order:
      a timeout yields nothing and the next `read_line` call follows. */
  lemma {:induction false} YieldsOnlyData(o: Options, rs: seq<ReadResult>)
    requires !o.yieldOnTimeout
    ensures Drive(o, rs).yielded == DataBatches(rs[..Drive(o, rs).calls])
    decreases |rs|
  {
    if rs != [] {
      YieldsOnlyData(o, rs[1..]);
      var t := Drive(o, rs[1..]);
      if !rs[0].Signal? {
        assert rs[..t.calls + 1] == [rs[0]] + rs[1..][..t.calls];
        DataBatchesAppend([rs[0]], rs[1..][..t.calls]);
        assert DataBatches([rs[0]]) == (if rs[0].Data? then [rs[0].batch] else []) by {
          assert [rs[0]][1..] == [];
        }
      } else {
        assert rs[..1] == [rs[0]];
        assert [rs[0]][1..] == [];
      }
    }
  }

  /** Every data result carries at least one line. */
  predicate DataNonEmpty(rs: seq<ReadResult>)
  {
    forall i :: 0 <= i < |rs| && rs[i].Data? ==> rs[i].batch != []
  }

  lemma {:induction false} DataBatchesNonEmpty(rs: seq<ReadResult>)
    requires DataNonEmpty(rs)
    ensures forall b :: b in DataBatches(rs) ==> b != []
    decreases |rs|
  {
    if rs != [] {
      assert DataNonEmpty(rs[1..]) by {
        forall i | 0 <= i < |rs[1..]| && rs[1..][i].Data? ensures rs[1..][i].batch != [] {
          assert rs[1..][i] == rs[i + 1];
        }
      }
      DataBatchesNonEmpty(rs[1..]);
    }
  }

  /** All lines of a sequence of batches, in order. */
  function Flatten(bs: seq<Batch>): (lines: Batch)
    decreases |bs|
  {
    if bs == [] then [] else bs[0] + Flatten(bs[1..])
  }

  lemma {:induction false} FlattenAppend(a: seq<Batch>, b: seq<Batch>)
    ensures Flatten(a + b) == Flatten(a) + Flatten(b)
    decreases |a|
  {
    if a == [] {
      assert a + b == b;
    } else {
      assert (a + b)[0] == a[0];
      assert (a + b)[1..] == a[1..] + b;
      FlattenAppend(a[1..], b);
    }
  }

  /** Whatever the options, the lines yielded are exactly the lines of the data
      results read, in order. */
  lemma {:induction false} YieldedLines(o: Options, rs: seq<ReadResult>)
    ensures Flatten(Drive(o, rs).yielded) == Flatten(DataBatches(rs[..Drive(o, rs).calls]))
    decreases |rs|
  {
    if rs != [] {
      YieldedLines(o, rs[1..]);
      var t := Drive(o, rs[1..]);
      if !rs[0].Signal? {
        assert rs[..t.calls + 1] == [rs[0]] + rs[1..][..t.calls];
        DataBatchesAppend([rs[0]], rs[1..][..t.calls]);
        assert [rs[0]][1..] == [];
        if rs[0].Data? {
          FlattenAppend([rs[0].batch], DataBatches(rs[1..][..t.calls]));
          FlattenAppend([rs[0].batch], t.yielded);
          assert [rs[0].batch][1..] == [];
        } else if o.yieldOnTimeout {
          assert ([[]] + t.yielded)[1..] == t.yielded;
        }
      } else {
        assert rs[..1] == [rs[0]];
        assert [rs[0]][1..] == [];
      }
    }
  }

  // ---------------------------------------------------------------------------
  // A whole session: the generator over consecutive engine calls

  /** The results of consecutive `read_line` calls over one stream of ticks, each
      call starting where the previous one returned; no call follows a "signal"
      marker. `waiting` is the buffer of the call still waiting when the ticks
      run out, if any. */
  datatype Calls = Calls(results: seq<ReadResult>, waiting: Batch)

  function ReadCalls(p: Params, s: Shared, ticks: seq<Tick>): (c: Calls)
    ensures forall i :: 0 <= i < |c.results| - 1 ==> !c.results[i].Signal?
    decreases |ticks|
  {
    match ReadLine(p, s, ticks)
    case Pending(l) => Calls([], l.shared.buffer)
    case Returned(res, after, used) =>
      if res.Signal? then Calls([res], [])
      else
        var rest := ReadCalls(p, after, ticks[used..]);
        Calls([res] + rest.results, rest.waiting)
  }

  /** `tail` over a stream of ticks, starting from the shared state `s`: every
      result of the engine calls is dispatched, and the generator stops only
      at a "signal" marker, the last call made. */
  function Session(o: Options, s: Shared, ticks: seq<Tick>): (t: Trace)
    ensures t.calls == |ReadCalls(ReadParams(o), s, ticks).results|
    ensures t.ending != Running ==> 0 < t.calls && ReadCalls(ReadParams(o), s, ticks).results[t.calls - 1].Signal?
  {
    var rs := ReadCalls(ReadParams(o), s, ticks).results;
    DriveReadsAll(o, rs);
    Drive(o, rs)
  }

  lemma PrefixExtend<T>(head: seq<T>, a: seq<T>, b: seq<T>)
    requires a <= b
    ensures head + a <= head + b
  {
    assert (head + b)[..|head| + |a|] == head + b[..|a|];
  }

  /** The lines of one more result in front come first. */
  lemma LinesOfOneMore(res: ReadResult, rs: seq<ReadResult>)
    ensures Flatten(DataBatches([res] + rs)) == BatchOf(res) + Flatten(DataBatches(rs))
  {
    DataBatchesAppend([res], rs);
    assert [res][1..] == [];
    if res.Data? {
      FlattenAppend([res.batch], DataBatches(rs));
      assert [res.batch][1..] == [];
    }
  }

  /** Consecutive calls hand over the lines in the order they were pushed, each
      at most once. */
  lemma {:induction false} CallsInOrder(p: Params, s: Shared, ticks: seq<Tick>)
    ensures Flatten(DataBatches(ReadCalls(p, s, ticks).results)) <= s.buffer + Appended(ticks)
    decreases |ticks|, 1
  {
    var r := ReadLine(p, s, ticks);
    if r.Pending? {
      assert ReadCalls(p, s, ticks).results == [];
    } else if r.result.Signal? {
      assert ReadCalls(p, s, ticks).results == [r.result];
      assert DataBatches([r.result]) == [] by { assert [r.result][1..] == []; }
    } else {
      CallsInOrderLater(p, s, ticks);
    }
  }

  lemma {:induction false} CallsInOrderLater(p: Params, s: Shared, ticks: seq<Tick>)
    requires ReadLine(p, s, ticks).Returned? && !ReadLine(p, s, ticks).result.Signal?
    ensures Flatten(DataBatches(ReadCalls(p, s, ticks).results)) <= s.buffer + Appended(ticks)
    decreases |ticks|, 0
  {
    var r := ReadLine(p, s, ticks);
    var used := r.used;
    RunData(p, Start(p, s), ticks);
    RunTimeout(p, Start(p, s), ticks);
    RunClears(p, Start(p, s), ticks);
    var head := s.buffer + Appended(ticks[..used]);
    var later := Appended(ticks[used..]);
    assert BatchOf(r.result) == head;
    var rest := ReadCalls(p, r.after, ticks[used..]);
    assert ReadCalls(p, s, ticks).results == [r.result] + rest.results;
    CallsInOrder(p, r.after, ticks[used..]);
    assert r.after.buffer == [];
    assert r.after.buffer + later == later;
    var mine := Flatten(DataBatches(rest.results));
    assert mine <= later;
    LinesOfOneMore(r.result, rest.results);
    PrefixExtend(head, mine, later);
    AppendedSplit(ticks, used);
    ConcatAssoc(s.buffer, Appended(ticks[..used]), later);
    assert Flatten(DataBatches(ReadCalls(p, s, ticks).results)) == head + mine;
  }

  /** Without an interrupt, every line pushed has been handed over by one of the
      calls or is still waiting in the buffer. */
  lemma {:induction false} CallsComplete(p: Params, s: Shared, ticks: seq<Tick>)
    requires NoSignal(ticks)
    ensures Flatten(DataBatches(ReadCalls(p, s, ticks).results)) + ReadCalls(p, s, ticks).waiting
              == s.buffer + Appended(ticks)
    decreases |ticks|, 1
  {
    var r := ReadLine(p, s, ticks);
    if r.Pending? {
      RunPending(p, Start(p, s), ticks);
      assert ReadCalls(p, s, ticks) == Calls([], r.state.shared.buffer);
    } else {
      CallsCompleteLater(p, s, ticks);
    }
  }

  lemma {:induction false} CallsCompleteLater(p: Params, s: Shared, ticks: seq<Tick>)
    requires NoSignal(ticks) && ReadLine(p, s, ticks).Returned?
    ensures Flatten(DataBatches(ReadCalls(p, s, ticks).results)) + ReadCalls(p, s, ticks).waiting
              == s.buffer + Appended(ticks)
    decreases |ticks|, 0
  {
    var r := ReadLine(p, s, ticks);
    var used := r.used;
    RunSignal(p, Start(p, s), ticks);
    assert !ticks[used - 1].signal;
    RunData(p, Start(p, s), ticks);
    RunTimeout(p, Start(p, s), ticks);
    RunClears(p, Start(p, s), ticks);
    var head := s.buffer + Appended(ticks[..used]);
    var later := Appended(ticks[used..]);
    assert BatchOf(r.result) == head;
    var rest := ReadCalls(p, r.after, ticks[used..]);
    assert ReadCalls(p, s, ticks) == Calls([r.result] + rest.results, rest.waiting);
    SignalSplit(ticks, used);
    CallsComplete(p, r.after, ticks[used..]);
    assert r.after.buffer + later == later;
    LinesOfOneMore(r.result, rest.results);
    AppendedSplit(ticks, used);
    ConcatAssoc(s.buffer, Appended(ticks[..used]), later);
    ConcatAssoc(head, Flatten(DataBatches(rest.results)), rest.waiting);
  }

  /** The calls end in a "signal" marker exactly when some consumed tick carries
      an interrupt; no other result is that marker. */
  lemma {:induction false} CallsEnd(p: Params, s: Shared, ticks: seq<Tick>)
    ensures NoSignal(ticks) ==> NoSignalResult(ReadCalls(p, s, ticks).results)
    ensures !NoSignal(ticks) ==>
              var rs := ReadCalls(p, s, ticks).results;
              rs != [] && rs[|rs| - 1].Signal?
    decreases |ticks|, 1
  {
    ReadLineSpec(p, s, ticks);
    var r := ReadLine(p, s, ticks);
    if r.Returned? && !r.result.Signal? {
      CallsEndLater(p, s, ticks);
    }
  }

  lemma {:induction false} CallsEndLater(p: Params, s: Shared, ticks: seq<Tick>)
    requires ReadLine(p, s, ticks).Returned? && !ReadLine(p, s, ticks).result.Signal?
    ensures NoSignal(ticks) ==> NoSignalResult(ReadCalls(p, s, ticks).results)
    ensures !NoSignal(ticks) ==>
              var rs := ReadCalls(p, s, ticks).results;
              rs != [] && rs[|rs| - 1].Signal?
    decreases |ticks|, 0
  {
    ReadLineSpec(p, s, ticks);
    var r := ReadLine(p, s, ticks);
    var rest := ReadCalls(p, r.after, ticks[r.used..]);
    var rs := [r.result] + rest.results;
    assert ReadCalls(p, s, ticks).results == rs;
    CallsEnd(p, r.after, ticks[r.used..]);
    SignalSplit(ticks, r.used);
    if NoSignal(ticks) {
      forall i | 0 <= i < |rs| ensures !rs[i].Signal? {
        if i > 0 { assert rs[i] == rest.results[i - 1]; }
      }
    } else {
      assert rs[|rs| - 1] == rest.results[|rest.results| - 1];
    }
  }

  /** Every data result of consecutive calls carries at least one line. */
  lemma {:induction false} CallsDataNonEmpty(p: Params, s: Shared, ticks: seq<Tick>)
    ensures DataNonEmpty(ReadCalls(p, s, ticks).results)
    decreases |ticks|
  {
    var r := ReadLine(p, s, ticks);
    RunData(p, Start(p, s), ticks);
    if r.Returned? && !r.result.Signal? {
      var rest := ReadCalls(p, r.after, ticks[r.used..]);
      var rs := [r.result] + rest.results;
      CallsDataNonEmpty(p, r.after, ticks[r.used..]);
      forall i | 0 <= i < |rs| && rs[i].Data? ensures rs[i].batch != [] {
        if i > 0 { assert rs[i] == rest.results[i - 1]; }
      }
    }
  }

  /** When only the last result can be the "signal" marker, the generator reads them all. */
  lemma DriveReadsAll(o: Options, rs: seq<ReadResult>)
    requires forall i :: 0 <= i < |rs| - 1 ==> !rs[i].Signal?
    ensures Drive(o, rs).calls == |rs|
  {
  }

  /** The generator yields the pushed lines in push order, never one twice and
      never one that was not pushed; without an interrupt, every line pushed is
      yielded or still waiting in the buffer. */
  lemma SessionDelivers(o: Options, s: Shared, ticks: seq<Tick>)
    ensures Flatten(Session(o, s, ticks).yielded) <= s.buffer + Appended(ticks)
    ensures NoSignal(ticks) ==>
              Flatten(Session(o, s, ticks).yielded) + ReadCalls(ReadParams(o), s, ticks).waiting
                == s.buffer + Appended(ticks)
  {
    var rs := ReadCalls(ReadParams(o), s, ticks).results;
    CallsInOrder(ReadParams(o), s, ticks);
    if NoSignal(ticks) {
      CallsComplete(ReadParams(o), s, ticks);
    }
    YieldedLines(o, rs);
    DriveReadsAll(o, rs);
    assert rs[..Drive(o, rs).calls] == rs;
  }

  /** The generator stops exactly when an interrupt is observed: raising
      `KeyboardInterrupt` when `raise_interrupt` is set, returning otherwise. */
  lemma SessionEnds(o: Options, s: Shared, ticks: seq<Tick>)
    ensures Session(o, s, ticks).ending == Running <==> NoSignal(ticks)
    ensures Session(o, s, ticks).ending == Interrupted <==> !NoSignal(ticks) && o.raiseInterrupt
  {
    var rs := ReadCalls(ReadParams(o), s, ticks).results;
    CallsEnd(ReadParams(o), s, ticks);
    DriveEndsAtFirstSignal(o, rs);
  }

  /** Every line of the batch comes from one of the watched paths. */
  predicate Watched(paths: seq<string>, b: Batch)
  {
    forall l :: l in b ==> l.path in paths
  }

  lemma {:induction false} FlattenKeepsLines(bs: seq<Batch>, b: Batch, l: AddedLine)
    requires b in bs && l in b
    ensures l in Flatten(bs)
    decreases |bs|
  {
    if bs[0] != b {
      FlattenKeepsLines(bs[1..], b, l);
    }
  }

  /** If the producer only reports lines of watched files, the generator only
      yields lines of watched files. */
  lemma YieldsWatchedPaths(o: Options, paths: seq<string>, s: Shared, ticks: seq<Tick>)
    requires Watched(paths, s.buffer + Appended(ticks))
    ensures forall b :: b in Session(o, s, ticks).yielded ==> Watched(paths, b)
  {
    SessionDelivers(o, s, ticks);
    var ys := Session(o, s, ticks).yielded;
    var all := s.buffer + Appended(ticks);
    forall b, l | b in ys && l in b ensures l.path in paths {
      FlattenKeepsLines(ys, b, l);
      assert l in all[..|Flatten(ys)|];
    }
  }

  /** Without `yield_on_timeout` the generator never yields an empty batch: the
      engine only hands back a batch once it holds a line. */
  lemma SessionYieldsNonEmpty(o: Options, s: Shared, ticks: seq<Tick>)
    requires !o.yieldOnTimeout
    ensures forall b :: b in Session(o, s, ticks).yielded ==> b != []
  {
    var rs := ReadCalls(ReadParams(o), s, ticks).results;
    YieldsOnlyData(o, rs);
    DriveReadsAll(o, rs);
    assert rs[..Drive(o, rs).calls] == rs;
    CallsDataNonEmpty(ReadParams(o), s, ticks);
    DataBatchesNonEmpty(rs);
  }

  /** The defaults retry on a timeout and raise on an interrupt. */
  lemma DefaultsDispatch(r: ReadResult)
    ensures r.Timeout? ==> Dispatch(Defaults, r) == Retry
    ensures r.Signal? ==> Dispatch(Defaults, r) == Raise
    ensures ReadParams(Defaults) == Params(1600, 50, 5000)
  {
  }
}
