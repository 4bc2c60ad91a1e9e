/** The decorators of pyimc/decorators.py: `@Periodic(T)`, `@Subscribe(*types)`
    and `@RunOnce(delay)`. A decorated function keeps its decorators in a
    list; at setup each decorator checks the function's signature and, for
    the timed ones, schedules it. The event loop is replaced by the
    sequence of times at which the function body is entered. */
module Decorators {
  import opened Prelude
  import opened Messages

  /** What `inspect.getfullargspec` reports: the positional parameter
      names (including `self` for a method) and how many have defaults. */
  datatype Sig = Sig(args: seq<string>, nDefaults: nat)

  /** Parameters besides `self`. */
  function NArgs(s: Sig): int {
    if "self" in s.args then |s.args| - 1 else |s.args|
  }

  /** Parameters besides `self` without a default. */
  function NRequired(s: Sig): int {
    NArgs(s) - s.nDefaults
  }

  datatype Decorator =
    | PeriodicDec(period: real)
      /** `subs` is unset (`None`) when `Subscribe()` got no argument */
    | SubscribeDec(subs: Option<seq<SubKey>>)
    | RunOnceDec(delay: real)

  /** A decorated function: its signature, its parameter annotations (only
      message types matter here) and its `_decorators` list (empty when the
      attribute is not set). */
  datatype Fn = Fn(sig: Sig, annotations: map<string, SubKey>, decorators: seq<Decorator>)

  /** `fn._decorators.append(self)`, creating the list on first use. */
  function AddDecorator(f: Fn, d: Decorator): Fn {
    f.(decorators := f.decorators + [d])
  }

  /** Applying `Periodic` and `RunOnce` decorators one after another (the
      innermost first) records them in application order. */
  function ApplyAll(f: Fn, ds: seq<Decorator>): Fn
    decreases |ds|
  {
    if |ds| == 0 then f else ApplyAll(AddDecorator(f, ds[0]), ds[1..])
  }

  lemma {:induction false} ApplyAllOrder(f: Fn, ds: seq<Decorator>)
    ensures ApplyAll(f, ds).decorators == f.decorators + ds
    ensures ApplyAll(f, ds).sig == f.sig
    decreases |ds|
  {
    if |ds| > 0 {
      var f' := AddDecorator(f, ds[0]);
      ApplyAllOrder(f', ds[1..]);
      assert f.decorators + [ds[0]] + ds[1..] == f.decorators + ds;
    }
  }

  /** An argument of `Subscribe(...)`: a bound IMC message type, or any
      object from another module. */
  datatype SubArg = ImcType(key: SubKey) | NotImc

  /** `Subscribe.__init__(*args)`: the message types in order, TypeError at
      the first argument that is not one; with no argument `subs` stays
      unset. */
  function NewSubscribe(args: seq<SubArg>): (r: Result<Decorator>)
    ensures r.Ok? <==> forall i :: 0 <= i < |args| ==> args[i].ImcType?
    ensures r.Err? ==> r.exc == TypeError
    ensures r.Ok? && |args| == 0 ==> r.value == SubscribeDec(None)
    ensures r.Ok? && |args| > 0 ==>
              && r.value.SubscribeDec? && r.value.subs.Some?
              && |r.value.subs.value| == |args|
              && forall i :: 0 <= i < |args| ==> r.value.subs.value[i] == args[i].key
  {
    if |args| == 0 then Ok(SubscribeDec(None))
    else if !args[0].ImcType? then Err(TypeError)
    else match NewSubscribe(args[1..])
      case Err(e) =>
        assert exists i :: 1 <= i < |args| && !args[i].ImcType? by {
          var j :| 0 <= j < |args[1..]| && !args[1..][j].ImcType?;
          assert args[j + 1] == args[1..][j];
        }
        Err(e)
      case Ok(d) =>
        assert forall i :: 1 <= i < |args| ==> args[i] == args[1..][i - 1];
        Ok(SubscribeDec(Some([args[0].key] + (if d.subs.Some? then d.subs.value else []))))
  }

  /** `Subscribe.__call__(fn)`: records the decorator first, then insists
      on at least one message parameter and at most one required one, and
      annotates an unannotated first parameter with the last subscribed
      type. */
  function SubscribeCall(d: Decorator, f: Fn): (r: (Fn, Option<Exc>))
    requires d.SubscribeDec?
  {
    var g := AddDecorator(f, d);
    if NArgs(f.sig) < 1 || NRequired(f.sig) > 1 then (g, Some(AssertionError))
    else
      var first := if "self" in f.sig.args then f.sig.args[1] else f.sig.args[0];
      if first in f.annotations then (g, None)
      else match d.subs
        case None => (g, Some(AttributeError))
        case Some(s) =>
          if |s| == 0 then (g, Some(IndexError))
          else (g.(annotations := f.annotations[first := s[|s| - 1]]), None)
  }

  /** The decorator is recorded whatever happens; the call fails exactly
      when the signature has no message parameter or more than one required
      parameter (or, for an unannotated parameter, when no type was given);
      the only annotation it may add is the last subscribed type. */
  lemma SubscribeCallEffect(d: Decorator, f: Fn)
    requires d.SubscribeDec?
    ensures var r := SubscribeCall(d, f);
            && r.0.decorators == f.decorators + [d]
            && ((NArgs(f.sig) < 1 || NRequired(f.sig) > 1) ==> r.1 == Some(AssertionError))
            && (r.1.None? ==> NArgs(f.sig) >= 1 && NRequired(f.sig) <= 1)
            && (d.subs.Some? && |d.subs.value| > 0 && NArgs(f.sig) >= 1 && NRequired(f.sig) <= 1 ==> r.1.None?)
            && (r.1.None? ==> forall a :: a in f.annotations ==> a in r.0.annotations && r.0.annotations[a] == f.annotations[a])
            && (r.1.None? ==> forall a :: a in r.0.annotations && a !in f.annotations ==>
                                r.0.annotations[a] == d.subs.value[|d.subs.value| - 1])
  {
  }

  /** The signature check of `Periodic.add_event` and `RunOnce.add_event`:
      no required parameter besides `self`. */
  function CheckNoRequired(s: Sig): Option<Exc> {
    if NRequired(s) == 0 then None else Some(AssertionError)
  }

  // ---------------------------------------------------------------------
  // timing
  // ---------------------------------------------------------------------

  /** The sleep after a periodic body that started at `lastExec` and
      returned at `now`: `max(0, T + last_exec - now)`. */
  function PeriodicSleep(period: real, lastExec: real, now: real): (r: real)
    ensures r >= 0.0
    ensures lastExec <= now && period >= 0.0 ==> r <= period
    ensures r == 0.0 || now + r == lastExec + period
    ensures r == 0.0 <==> now >= lastExec + period
  {
    Max(0.0, period + lastExec - now)
  }

  /** How much later than asked the event loop resumes a sleeping task.
      `asyncio.sleep` never wakes early, but it may wake late. */
  type Lateness = x: real | 0.0 <= x

  /** One turn of the `while True` loop: how long the body ran, the
      exception it raised, if any, and how late the sleep after it woke. */
  datatype Cycle = Cycle(duration: real, raised: Option<Exc>, late: Lateness)

  /** The wake-up after a body entered at `t` that ran for `c.duration`:
      the end of the body, then the computed sleep, then the loop's
      lateness. */
  function NextEntry(period: real, t: real, c: Cycle): real {
    t + c.duration + PeriodicSleep(period, t, t + c.duration) + c.late
  }

  /** The times at which a periodic body is entered from `t0` on, and the
      exception that ends the loop. The loop only ends by an exception. */
  function PeriodicRun(period: real, t0: real, cycles: seq<Cycle>): (r: (seq<real>, Option<Exc>))
    ensures |r.0| <= |cycles|
    ensures |cycles| > 0 ==> |r.0| > 0 && r.0[0] == t0
    decreases |cycles|
  {
    if |cycles| == 0 then ([], None)
    else
      var c := cycles[0];
      if c.raised.Some? then ([t0], c.raised)
      else
        var rest := PeriodicRun(period, NextEntry(period, t0, c), cycles[1..]);
        ([t0] + rest.0, rest.1)
  }

  /** The lateness of the first `k` wake-ups. */
  function LateSum(cycles: seq<Cycle>, k: nat): real
    requires k <= |cycles|
  {
    if k == 0 then 0.0 else LateSum(cycles, k - 1) + cycles[k - 1].late
  }

  /** An exception ends the task: the body runs up to and including the
      first cycle that raises, the exception is that cycle's, and without
      one every cycle runs. */
  lemma {:induction false} PeriodicStopsOnException(period: real, t0: real, cycles: seq<Cycle>)
    ensures var r := PeriodicRun(period, t0, cycles);
            && (forall i :: 0 <= i < |r.0| - 1 ==> cycles[i].raised.None?)
            && (r.1.Some? ==> |r.0| > 0 && r.1 == cycles[|r.0| - 1].raised)
            && (r.1.None? ==> |r.0| == |cycles| && forall i :: 0 <= i < |cycles| ==> cycles[i].raised.None?)
    decreases |cycles|
  {
    if |cycles| > 0 && cycles[0].raised.None? {
      var next := NextEntry(period, t0, cycles[0]);
      PeriodicStopsOnException(period, next, cycles[1..]);
      var rest := PeriodicRun(period, next, cycles[1..]);
      assert forall i :: 1 <= i < |cycles| ==> cycles[i] == cycles[1..][i - 1];
    }
  }

  /** Consecutive entries are `max(T, duration)` apart plus the loop's
      lateness: a body that overruns its period is re-entered as soon as
      the loop gets to it, otherwise one period after it was last entered,
      and late by as much as the loop was. */
  lemma {:induction false} PeriodicGap(period: real, t0: real, cycles: seq<Cycle>, i: nat)
    requires i + 1 < |PeriodicRun(period, t0, cycles).0|
    requires cycles[i].duration >= 0.0
    ensures var s := PeriodicRun(period, t0, cycles).0;
            s[i + 1] == s[i] + Max(period, cycles[i].duration) + cycles[i].late
    decreases |cycles|
  {
    if i > 0 {
      PeriodicGap(period, NextEntry(period, t0, cycles[0]), cycles[1..], i - 1);
    }
  }

  /** Drift is the loop's lateness and nothing else: while every body
      finishes within the period, the k-th entry is at `t0 + k * T` plus
      how late the first `k` wake-ups were. The schedule is not fixed-rate:
      the next period is counted from the late entry, so lateness
      accumulates. */
  lemma {:induction false} PeriodicDrift(period: real, t0: real, cycles: seq<Cycle>, k: nat)
    requires forall i :: 0 <= i < |cycles| ==> 0.0 <= cycles[i].duration <= period
    requires k < |PeriodicRun(period, t0, cycles).0|
    ensures PeriodicRun(period, t0, cycles).0[k] == t0 + (k as real) * period + LateSum(cycles, k)
  {
    if k > 0 {
      PeriodicDrift(period, t0, cycles, k - 1);
      PeriodicGap(period, t0, cycles, k - 1);
      assert (k as real) * period == ((k - 1) as real) * period + period;
    }
  }

  /** Only a punctual loop keeps the schedule: with no lateness and every
      body within the period, the k-th entry is at exactly `t0 + k * T`. */
  lemma {:induction false} PeriodicNoDrift(period: real, t0: real, cycles: seq<Cycle>, k: nat)
    requires forall i :: 0 <= i < |cycles| ==> 0.0 <= cycles[i].duration <= period
    requires forall i :: 0 <= i < |cycles| ==> cycles[i].late == 0.0
    requires k < |PeriodicRun(period, t0, cycles).0|
    ensures PeriodicRun(period, t0, cycles).0[k] == t0 + (k as real) * period
  {
    PeriodicDrift(period, t0, cycles, k);
    LateSumZero(cycles, k);
  }

  lemma {:induction false} LateSumZero(cycles: seq<Cycle>, k: nat)
    requires k <= |cycles|
    requires forall i :: 0 <= i < |cycles| ==> cycles[i].late == 0.0
    ensures LateSum(cycles, k) == 0.0
  {
    if k > 0 {
      LateSumZero(cycles, k - 1);
    }
  }

  /** `Periodic.add_event` then the task: the signature check fails before
      anything runs; otherwise the first entry is immediate. */
  function PeriodicTask(period: real, sig: Sig, t0: real, cycles: seq<Cycle>): (r: (seq<real>, Option<Exc>))
    ensures NRequired(sig) != 0 ==> r == ([], Some(AssertionError))
    ensures NRequired(sig) == 0 ==> r == PeriodicRun(period, t0, cycles)
  {
    match CheckNoRequired(sig)
    case Some(e) => ([], Some(e))
    case None => PeriodicRun(period, t0, cycles)
  }

  /** `RunOnce.add_event` then the task: after the signature check, one
      entry, `delay` seconds after `t0` (a negative delay does not wait),
      plus however late the loop resumes the task. */
  function RunOnceTask(delay: real, late: Lateness, sig: Sig, t0: real): (r: Result<seq<real>>)
    ensures r.Err? <==> NRequired(sig) != 0
    ensures r.Err? ==> r.exc == AssertionError
    ensures r.Ok? ==> |r.value| == 1 && r.value[0] >= t0 + late && r.value[0] >= t0 + delay + late
    ensures r.Ok? && delay >= 0.0 ==> r.value[0] == t0 + delay + late
    ensures r.Ok? && delay < 0.0 ==> r.value[0] == t0 + late
  {
    match CheckNoRequired(sig)
    case Some(e) => Err(e)
    case None => Ok([t0 + Max(0.0, delay) + late])
  }
}
