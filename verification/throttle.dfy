/** `throttle(fn, interval, {leading, trailing})` of src/utils/util.ts as a
    clocked state machine. `new Date().getTime()` becomes the time of each
    input, the trailing `setTimeout` a timer slot that fires at its deadline,
    and every call's promise is named by the call's `id`. `lastTime == 0`
    plays the part of the falsy `!lastTime` test. */
module Throttle {
  import opened Wrappers
  import opened Timers

  datatype Pending<A> = Pending(deadline: int, args: A, id: nat)

  datatype Invocation<A> = Invocation(args: A, id: nat, at: int)

  datatype State<A> = State(interval: int, leading: bool, trailing: bool, lastTime: int, timer: Option<Pending<A>>)

  datatype Input<A> = CallAt(now: int, args: A, id: nat) | TickAt(now: int) | CancelNow

  /** The `options` object as given. A field left out of a given object is
      `undefined`, which the code reads as false. */
  datatype Options = Options(leading: Option<bool>, trailing: Option<bool>)

  /** `throttle(fn, interval, options)`. The default applies to the whole
      object: without one, `leading` is on and `trailing` off; a given object
      turns on exactly the fields it sets to true. */
  function New<A>(interval: int, options: Option<Options>): (s: State<A>)
    ensures s.interval == interval && s.lastTime == 0 && s.timer.None?
    ensures options.None? ==> s.leading && !s.trailing
    ensures options.Some? ==> (s.leading <==> options.value.leading == Some(true))
    ensures options.Some? ==> (s.trailing <==> options.value.trailing == Some(true))
  {
    match options
    case None => State(interval, true, false, 0, None)
    case Some(o) => State(interval, o.leading.GetOr(false), o.trailing.GetOr(false), 0, None)
  }

  /** Asking only for the trailing call turns the leading call off. */
  lemma TrailingOnlyHasNoLeading<A>(interval: int)
    ensures var s: State<A> := New(interval, Some(Options(None, Some(true))));
      !s.leading && s.trailing
  {
  }

  /** Time passes until `now`: a trailing timer whose deadline has come runs
      `fn`, settles its promise and stamps `lastTime` with its firing time,
      or resets it to 0 when `leading` is off. */
  function Tick<A>(s: State<A>, now: int): (r: (State<A>, seq<Invocation<A>>))
    ensures s.timer.None? || now < s.timer.value.deadline ==> r == (s, [])
    ensures s.timer.Some? && s.timer.value.deadline <= now ==>
      && r.0.timer.None?
      && r.0.lastTime == (if s.leading then s.timer.value.deadline else 0)
      && r.1 == [Invocation(s.timer.value.args, s.timer.value.id, s.timer.value.deadline)]
    ensures r.0.interval == s.interval && r.0.leading == s.leading && r.0.trailing == s.trailing
  {
    match s.timer
    case Some(p) =>
      if p.deadline <= now then
        (s.(timer := None, lastTime := if !s.leading then 0 else p.deadline), [Invocation(p.args, p.id, p.deadline)])
      else (s, [])
    case None => (s, [])
  }

  /** The time the call measures from: `lastTime`, except that with
      `leading` off an unset `lastTime` is first set to `now`. */
  function Since<A>(s: State<A>, now: int): int {
    if s.lastTime == 0 && !s.leading then now else s.lastTime
  }

  /** A call at time `now`. When at least `interval` has passed since
      `Since`, the pending trailing timer is dropped (its promise never
      settles), `fn` runs now and `lastTime` becomes `now`. Otherwise, in
      trailing mode with no timer armed, a timer is armed for the rest of
      the interval; in every other case the call's promise never settles. */
  function Call<A>(s: State<A>, now: int, args: A, id: nat): (r: (State<A>, seq<Invocation<A>>))
    ensures var t := Tick(s, now).0;
      && r.0.interval == s.interval && r.0.leading == s.leading && r.0.trailing == s.trailing
      && (t.interval <= now - Since(t, now) <==> r.1 == Tick(s, now).1 + [Invocation(args, id, now)])
      && (t.interval <= now - Since(t, now) ==> r.0.lastTime == now && r.0.timer.None?)
      && (t.interval > now - Since(t, now) ==>
            && r.0.lastTime == Since(t, now)
            && r.1 == Tick(s, now).1
            && r.0.timer == (if t.trailing && t.timer.None? then Some(Pending(now + Wait(t.interval - (now - Since(t, now))), args, id)) else t.timer))
  {
    var (t, fired) := Tick(s, now);
    var last := Since(t, now);
    var remain := t.interval - (now - last);
    if remain <= 0 then
      (t.(timer := None, lastTime := now), fired + [Invocation(args, id, now)])
    else if t.trailing && t.timer.None? then
      (t.(lastTime := last, timer := Some(Pending(now + Wait(remain), args, id))), fired)
    else
      (t.(lastTime := last), fired)
  }

  /** `cancel()`: drops the trailing timer and resets `lastTime` to 0. */
  function Cancel<A>(s: State<A>): (r: State<A>)
    ensures r.timer.None? && r.lastTime == 0
    ensures r.interval == s.interval && r.leading == s.leading && r.trailing == s.trailing
  {
    s.(timer := None, lastTime := 0)
  }

  function Apply<A>(s: State<A>, input: Input<A>): (State<A>, seq<Invocation<A>>) {
    match input
    case CallAt(now, args, id) => Call(s, now, args, id)
    case TickAt(now) => Tick(s, now)
    case CancelNow => (Cancel(s), [])
  }

  function Run<A>(s: State<A>, inputs: seq<Input<A>>): (State<A>, seq<Invocation<A>>)
    decreases |inputs|
  {
    if |inputs| == 0 then (s, [])
    else
      var p := Run(s, inputs[..|inputs| - 1]);
      var q := Apply(p.0, inputs[|inputs| - 1]);
      (q.0, p.1 + q.1)
  }

  /** With `trailing` off no timer is ever armed, whatever the inputs, and
      every run of `fn` is a call running at its own time. */
  lemma {:induction false} NoTrailingNoTimer<A>(s: State<A>, inputs: seq<Input<A>>)
    requires !s.trailing && s.timer.None?
    ensures Run(s, inputs).0.timer.None?
    ensures !Run(s, inputs).0.trailing
    ensures forall j :: 0 <= j < |Run(s, inputs).1| ==>
      exists i :: 0 <= i < |inputs| && inputs[i] == CallAt(Run(s, inputs).1[j].at, Run(s, inputs).1[j].args, Run(s, inputs).1[j].id)
    decreases |inputs|
  {
    if |inputs| > 0 {
      var front := inputs[..|inputs| - 1];
      NoTrailingNoTimer(s, front);
      var p := Run(s, front);
      var q := Apply(p.0, inputs[|inputs| - 1]);
      forall j | 0 <= j < |Run(s, inputs).1|
        ensures exists i :: 0 <= i < |inputs| && inputs[i] == CallAt(Run(s, inputs).1[j].at, Run(s, inputs).1[j].args, Run(s, inputs).1[j].id)
      {
        if j < |p.1| {
          var i :| 0 <= i < |front| && front[i] == CallAt(p.1[j].at, p.1[j].args, p.1[j].id);
          assert inputs[i] == front[i];
        } else {
          assert inputs[|inputs| - 1] == CallAt(Run(s, inputs).1[j].at, Run(s, inputs).1[j].args, Run(s, inputs).1[j].id);
        }
      }
    }
  }

  /** Calls only, at times that never go backwards. */
  predicate CallsInTimeOrder<A>(inputs: seq<Input<A>>) {
    && (forall i :: 0 <= i < |inputs| ==> inputs[i].CallAt?)
    && (forall i :: 0 < i < |inputs| ==> inputs[i - 1].now <= inputs[i].now)
  }

  /** Consecutive runs of `fn` are at least `interval` apart. */
  predicate Spaced<A>(out: seq<Invocation<A>>, interval: int) {
    forall j :: 0 < j < |out| ==> out[j].at - out[j - 1].at >= interval
  }

  /** Without the trailing timer and without `cancel`, calls in time order
      run `fn` at least `interval` apart, in either leading mode: the last
      run is never later than `lastTime`, and every later run needs
      `interval` to have passed since `lastTime`. */
  lemma {:induction false} RunsAreSpaced<A>(s: State<A>, inputs: seq<Input<A>>)
    requires !s.trailing && s.timer.None? && CallsInTimeOrder(inputs)
    ensures Spaced(Run(s, inputs).1, s.interval)
    ensures Run(s, inputs).0.timer.None? && !Run(s, inputs).0.trailing
    ensures Run(s, inputs).0.interval == s.interval
    ensures var out := Run(s, inputs).1;
      out != [] ==> |inputs| > 0 && out[|out| - 1].at <= Run(s, inputs).0.lastTime && out[|out| - 1].at <= inputs[|inputs| - 1].now
    decreases |inputs|
  {
    if |inputs| > 0 {
      var front := inputs[..|inputs| - 1];
      assert CallsInTimeOrder(front) by {
        assert forall i :: 0 <= i < |front| ==> front[i] == inputs[i];
      }
      RunsAreSpaced(s, front);
      var p := Run(s, front);
      var c := inputs[|inputs| - 1];
      var q := Call(p.0, c.now, c.args, c.id);
      assert Tick(p.0, c.now) == (p.0, []);
      if p.1 != [] {
        assert front[|front| - 1] == inputs[|inputs| - 2];
      }
      assert Run(s, inputs).1 == p.1 + q.1;
    }
  }

  /** `cancel` forgets the last run: the next call measures from 0 again
      (from its own time when `leading` is off). */
  lemma CancelResets<A>(s: State<A>, now: int)
    ensures Since(Cancel(s), now) == (if s.leading then 0 else now)
    ensures Tick(Cancel(s), now).1 == []
  {
  }
}
