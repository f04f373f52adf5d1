/** `debounce(func, wait)` (js/scholarships.js): every call clears the pending
    timer and sets a new one `wait` milliseconds later with the newest
    arguments; when a timer comes due, `func` runs once with them. Time is an
    explicit millisecond clock: `Input` is a call of the debounced function and
    `Clock` the event loop reaching a moment at which due timers run. */
module Debounce {
  import opened Optional

  /** The one timer a debounced function keeps: when it is due and the
      arguments `func` will get. */
  datatype Timer<A> = Timer(due: int, args: A)

  datatype Event<A> = Input(at: int, args: A) | Clock(at: int)

  /** A call at `now`: `clearTimeout` on the old timer, `setTimeout` of a new one. */
  function OnInput<A>(wait: nat, now: int, args: A): (p: Option<Timer<A>>)
    ensures p.Some? && p.value.due - now == wait && p.value.args == args
  {
    Some(Timer(now + wait, args))
  }

  /** The event loop at `now`: a due timer runs `func` with its arguments and
      is gone; otherwise nothing happens. */
  function OnClock<A>(pending: Option<Timer<A>>, now: int): (r: (Option<Timer<A>>, Option<A>))
    ensures r.1.Some? <==> pending.Some? && pending.value.due <= now
    ensures r.1.Some? ==> r.0 == None && r.1.value == pending.value.args
    ensures r.1.None? ==> r.0 == pending
  {
    if pending.Some? && pending.value.due <= now then (None, Some(pending.value.args))
    else (pending, None)
  }

  /** The pending timer after a sequence of events, and the arguments of each
      run of `func`, in order. */
  function Run<A>(wait: nat, pending: Option<Timer<A>>, evs: seq<Event<A>>): (Option<Timer<A>>, seq<A>)
    decreases |evs|
  {
    if evs == [] then (pending, [])
    else
      match evs[0]
      case Input(t, a) => Run(wait, OnInput(wait, t, a), evs[1..])
      case Clock(t) =>
        var now := OnClock(pending, t);
        var later := Run(wait, now.0, evs[1..]);
        (later.0, Fired(now.1) + later.1)
  }

  function Fired<A>(fired: Option<A>): seq<A> {
    if fired.Some? then [fired.value] else []
  }

  function InputCount<A>(evs: seq<Event<A>>): nat {
    if evs == [] then 0 else (if evs[0].Input? then 1 else 0) + InputCount(evs[1..])
  }

  /** `func` runs at most once per call: at most once for each `Input`, plus
      once for a timer already pending at the start. */
  lemma {:induction false} RunsAtMostOncePerCall<A>(wait: nat, pending: Option<Timer<A>>, evs: seq<Event<A>>)
    ensures |Run(wait, pending, evs).1| <= InputCount(evs) + (if pending.Some? then 1 else 0)
    decreases |evs|
  {
    if evs != [] {
      match evs[0]
      case Input(t, a) =>
        RunsAtMostOncePerCall(wait, OnInput(wait, t, a), evs[1..]);
      case Clock(t) =>
        RunsAtMostOncePerCall(wait, OnClock(pending, t).0, evs[1..]);
    }
  }

  /** Running `x` and then `y` is running `x + y`. */
  lemma {:induction false} RunAppend<A>(wait: nat, pending: Option<Timer<A>>, x: seq<Event<A>>, y: seq<Event<A>>)
    ensures Run(wait, pending, x + y)
         == (Run(wait, Run(wait, pending, x).0, y).0,
             Run(wait, pending, x).1 + Run(wait, Run(wait, pending, x).0, y).1)
    decreases |x|
  {
    if x == [] {
      assert x + y == y;
      assert [] + Run(wait, pending, y).1 == Run(wait, pending, y).1;
    } else {
      assert (x + y)[0] == x[0] && (x + y)[1..] == x[1..] + y;
      match x[0]
      case Input(t, a) =>
        RunAppend(wait, OnInput(wait, t, a), x[1..], y);
      case Clock(t) =>
        var p := OnClock(pending, t).0;
        RunAppend(wait, p, x[1..], y);
        var now := Fired(OnClock(pending, t).1);
        assert Run(wait, pending, x) == (Run(wait, p, x[1..]).0, now + Run(wait, p, x[1..]).1);
        assert Run(wait, pending, x + y) == (Run(wait, p, x[1..] + y).0, now + Run(wait, p, x[1..] + y).1);
        assert now + (Run(wait, p, x[1..]).1 + Run(wait, Run(wait, p, x[1..]).0, y).1)
            == (now + Run(wait, p, x[1..]).1) + Run(wait, Run(wait, p, x[1..]).0, y).1;
    }
  }

  /** The `Clock` events at the given moments. */
  function Clocks<A>(ticks: seq<int>): (evs: seq<Event<A>>)
    ensures |evs| == |ticks|
    ensures forall i :: 0 <= i < |ticks| ==> evs[i] == Clock(ticks[i])
  {
    if ticks == [] then [] else [Clock(ticks[0])] + Clocks(ticks[1..])
  }

  /** Moments before the timer is due leave it pending and run nothing. */
  lemma {:induction false} EarlyClocksRunNothing<A>(wait: nat, timer: Timer<A>, ticks: seq<int>)
    requires forall i :: 0 <= i < |ticks| ==> ticks[i] < timer.due
    ensures Run(wait, Some(timer), Clocks(ticks)) == (Some(timer), [])
    decreases |ticks|
  {
    if ticks != [] {
      var evs: seq<Event<A>> := Clocks(ticks);
      assert evs[0] == Clock(ticks[0]) && evs[1..] == Clocks(ticks[1..]);
      EarlyClocksRunNothing(wait, timer, ticks[1..]);
      var now := OnClock(Some(timer), ticks[0]);
      assert now == (Some(timer), None);
      var later := Run(wait, now.0, evs[1..]);
      assert Run(wait, Some(timer), evs) == (later.0, Fired(now.1) + later.1);
      assert Fired(now.1) + later.1 == [];
    }
  }

  /** One call of a burst and the moments the event loop reaches before the
      next call. */
  datatype Call<A> = Call(at: int, args: A, ticks: seq<int>)

  function Events<A>(burst: seq<Call<A>>): seq<Event<A>> {
    if burst == [] then []
    else [Input(burst[0].at, burst[0].args)] + Clocks(burst[0].ticks) + Events(burst[1..])
  }

  /** Calls less than `wait` apart, each followed only by moments before the
      next call, and the last followed only by moments before its own timer
      is due. */
  predicate IsBurst<A>(wait: nat, burst: seq<Call<A>>) {
    && burst != []
    && (forall i :: 0 <= i < |burst| - 1 ==> burst[i + 1].at < burst[i].at + wait)
    && (forall i, k :: 0 <= i < |burst| - 1 && 0 <= k < |burst[i].ticks| ==>
          burst[i].ticks[k] < burst[i + 1].at)
    && (forall k :: 0 <= k < |Last(burst).ticks| ==> Last(burst).ticks[k] < Last(burst).at + wait)
  }

  function Last<A>(burst: seq<Call<A>>): Call<A>
    requires burst != []
  {
    burst[|burst| - 1]
  }

  /** During a burst of calls `func` never runs, and afterwards one timer is
      pending: due `wait` after the last call, with the last call's arguments. */
  lemma {:induction false} BurstRunsNothing<A>(wait: nat, pending: Option<Timer<A>>, burst: seq<Call<A>>)
    requires IsBurst(wait, burst)
    ensures Run(wait, pending, Events(burst)) == (Some(Timer(Last(burst).at + wait, Last(burst).args)), [])
    decreases |burst|
  {
    var c := burst[0];
    var timer := Timer(c.at + wait, c.args);
    assert Events(burst) == [Input(c.at, c.args)] + Clocks(c.ticks) + Events(burst[1..]);
    FirstTicksEarly(wait, burst);
    CallThenEarlyClocks(wait, pending, c, Events(burst[1..]));
    if |burst| > 1 {
      BurstTail(wait, burst);
      BurstRunsNothing(wait, Some(timer), burst[1..]);
    } else {
      assert Events(burst[1..]) == [];
      assert Last(burst) == c;
    }
  }

  /** The first call's moments all come before its own timer is due. */
  lemma FirstTicksEarly<A>(wait: nat, burst: seq<Call<A>>)
    requires IsBurst(wait, burst)
    ensures forall k :: 0 <= k < |burst[0].ticks| ==> burst[0].ticks[k] < burst[0].at + wait
  {
    forall k | 0 <= k < |burst[0].ticks| ensures burst[0].ticks[k] < burst[0].at + wait {
      if |burst| > 1 {
        assert burst[0].ticks[k] < burst[1].at < burst[0].at + wait;
      } else {
        assert Last(burst) == burst[0];
      }
    }
  }

  /** The rest of a burst is a burst with the same last call. */
  lemma BurstTail<A>(wait: nat, burst: seq<Call<A>>)
    requires IsBurst(wait, burst) && |burst| > 1
    ensures IsBurst(wait, burst[1..]) && Last(burst[1..]) == Last(burst)
  {
    var rest := burst[1..];
    assert forall i :: 0 <= i < |rest| ==> rest[i] == burst[i + 1];
    assert Last(rest) == Last(burst);
  }

  /** A call followed by moments before its timer is due leaves just that
      timer pending and runs nothing. */
  lemma CallThenEarlyClocks<A>(wait: nat, pending: Option<Timer<A>>, c: Call<A>, later: seq<Event<A>>)
    requires forall k :: 0 <= k < |c.ticks| ==> c.ticks[k] < c.at + wait
    ensures Run(wait, pending, [Input(c.at, c.args)] + Clocks(c.ticks) + later)
         == Run(wait, Some(Timer(c.at + wait, c.args)), later)
  {
    var timer := Timer(c.at + wait, c.args);
    var clocks: seq<Event<A>> := Clocks(c.ticks);
    var evs := [Input(c.at, c.args)] + clocks + later;
    assert evs[0] == Input(c.at, c.args) && evs[1..] == clocks + later;
    EarlyClocksRunNothing(wait, timer, c.ticks);
    RunAppend(wait, Some(timer), clocks, later);
    assert [] + Run(wait, Some(timer), later).1 == Run(wait, Some(timer), later).1;
  }

  /** After a burst, the first moment at or past the due time runs `func`
      exactly once, with the arguments of the last call. */
  lemma BurstRunsOnceWithLastArgs<A>(wait: nat, pending: Option<Timer<A>>, burst: seq<Call<A>>, t: int)
    requires IsBurst(wait, burst) && t >= Last(burst).at + wait
    ensures Run(wait, pending, Events(burst) + [Clock(t)]) == (None, [Last(burst).args])
  {
    var timer := Timer(Last(burst).at + wait, Last(burst).args);
    var tick: seq<Event<A>> := [Clock(t)];
    BurstRunsNothing(wait, pending, burst);
    RunAppend(wait, pending, Events(burst), tick);
    assert tick[0] == Clock(t) && tick[1..] == [];
    var now := OnClock(Some(timer), t);
    assert now == (None, Some(timer.args));
    assert Run(wait, now.0, tick[1..]) == (None, []);
    assert Run(wait, Some(timer), tick) == (None, Fired(now.1) + []);
    assert Fired(now.1) + [] == [timer.args] && [] + [timer.args] == [timer.args];
  }

  /** The debounced function as the page holds it: `wait` and the timer
      captured in its closure. */
  class Debouncer<A> {
    const wait: nat
    var pending: Option<Timer<A>>

    constructor(wait: nat)
      ensures this.wait == wait && pending == None
    {
      this.wait := wait;
      pending := None;
    }

    /** The debounced function called at `now` with `args`. */
    method Call(now: int, args: A)
      modifies this
      ensures pending == OnInput(wait, now, args)
    {
      pending := Some(Timer(now + wait, args));
    }

    /** The event loop at `now`: returns the arguments `func` runs with, if the
        timer is due. */
    method Tick(now: int) returns (fired: Option<A>)
      modifies this
      ensures (pending, fired) == OnClock(old(pending), now)
    {
      fired := None;
      if pending.Some? && pending.value.due <= now {
        fired := Some(pending.value.args);
        pending := None;
      }
    }
  }
}
