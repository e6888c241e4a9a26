/** `debounce(fn, delay, immediate)` of src/utils/util.ts as a clocked state
    machine. The `setTimeout` handle becomes a timer slot holding the
    deadline, the call's arguments and the id of the promise it settles;
    time passing is an explicit `TickAt(now)`, and a timer fires at its
    deadline. Every call to the debounced function returns a fresh promise,
    named here by the call's `id`; an `Invocation` records one run of `fn`
    and the promise it settles. */
module Debounce {
  import opened Wrappers
  import opened Timers

  datatype Pending<A> = Pending(deadline: int, args: A, id: nat)

  datatype Invocation<A> = Invocation(args: A, id: nat, at: int)

  datatype State<A> = State(delay: int, immediate: bool, isInvoke: bool, timer: Option<Pending<A>>)

  datatype Input<A> = CallAt(now: int, args: A, id: nat) | TickAt(now: int) | CancelNow

  /** A new debouncer: the settings as given, no timer and `isInvoke`
      false. */
  function New<A>(delay: int, immediate: bool): (s: State<A>)
    ensures s.delay == delay && s.immediate == immediate
    ensures s.timer.None? && !s.isInvoke && Inv(s)
  {
    State(delay, immediate, false, None)
  }

  /** Time passes until `now`: a timer whose deadline has come runs `fn`
      with its arguments, settles its promise and resets `isInvoke`. */
  function Tick<A>(s: State<A>, now: int): (r: (State<A>, seq<Invocation<A>>))
    ensures s.timer.None? || now < s.timer.value.deadline ==> r == (s, [])
    ensures s.timer.Some? && s.timer.value.deadline <= now ==>
      && r.0 == s.(timer := None, isInvoke := false)
      && r.1 == [Invocation(s.timer.value.args, s.timer.value.id, s.timer.value.deadline)]
  {
    match s.timer
    case Some(p) =>
      if p.deadline <= now then (s.(timer := None, isInvoke := false), [Invocation(p.args, p.id, p.deadline)])
      else (s, [])
    case None => (s, [])
  }

  /** A call of the debounced function at time `now`. In immediate mode the
      first call since the last firing runs `fn` at once; every other call
      clears the pending timer (its promise never settles) and arms a new
      one. */
  function Call<A>(s: State<A>, now: int, args: A, id: nat): (r: (State<A>, seq<Invocation<A>>))
    ensures r.0.delay == s.delay && r.0.immediate == s.immediate
    ensures var t := Tick(s, now).0;
      t.immediate && !t.isInvoke ==>
        && r.1 == Tick(s, now).1 + [Invocation(args, id, now)]
        && r.0 == t.(isInvoke := true)
    ensures var t := Tick(s, now).0;
      !(t.immediate && !t.isInvoke) ==>
        && r.1 == Tick(s, now).1
        && r.0 == t.(timer := Some(Pending(now + Wait(s.delay), args, id)))
  {
    var (t, fired) := Tick(s, now);
    if t.immediate && !t.isInvoke then (t.(isInvoke := true), fired + [Invocation(args, id, now)])
    else (t.(timer := Some(Pending(now + Wait(t.delay), args, id))), fired)
  }

  /** `cancel()`: the pending timer is dropped and `isInvoke` reset. */
  function Cancel<A>(s: State<A>): (r: State<A>)
    ensures r.timer.None? && !r.isInvoke
    ensures r.delay == s.delay && r.immediate == s.immediate
  {
    s.(timer := None, isInvoke := false)
  }

  function Apply<A>(s: State<A>, input: Input<A>): (State<A>, seq<Invocation<A>>) {
    match input
    case CallAt(now, args, id) => Call(s, now, args, id)
    case TickAt(now) => Tick(s, now)
    case CancelNow => (Cancel(s), [])
  }

  /** Applies `inputs` in order; returns the final state and every run of
      `fn`, oldest first. */
  function Run<A>(s: State<A>, inputs: seq<Input<A>>): (State<A>, seq<Invocation<A>>)
    decreases |inputs|
  {
    if |inputs| == 0 then (s, [])
    else
      var p := Run(s, inputs[..|inputs| - 1]);
      var q := Apply(p.0, inputs[|inputs| - 1]);
      (q.0, p.1 + q.1)
  }

  /** Running one more input applies it to the state the others leave. */
  lemma RunSnoc<A>(s: State<A>, inputs: seq<Input<A>>, input: Input<A>)
    ensures var p := Run(s, inputs);
      var q := Apply(p.0, input);
      Run(s, inputs + [input]) == (q.0, p.1 + q.1)
  {
    assert (inputs + [input])[..|inputs|] == inputs;
  }

  /** The state invariant: a non-immediate debouncer never sets `isInvoke`,
      and an immediate one only arms a timer after it has run `fn`. */
  predicate Inv<A>(s: State<A>) {
    && (!s.immediate ==> !s.isInvoke)
    && (s.immediate && s.timer.Some? ==> s.isInvoke)
  }

  lemma ApplyKeepsInv<A>(s: State<A>, input: Input<A>)
    requires Inv(s)
    ensures Inv(Apply(s, input).0)
  {
  }

  lemma {:induction false} RunKeepsInv<A>(s: State<A>, inputs: seq<Input<A>>)
    requires Inv(s)
    ensures Inv(Run(s, inputs).0)
    decreases |inputs|
  {
    if |inputs| > 0 {
      RunKeepsInv(s, inputs[..|inputs| - 1]);
      ApplyKeepsInv(Run(s, inputs[..|inputs| - 1]).0, inputs[|inputs| - 1]);
    }
  }

  /** Immediate mode, from a reachable state: a call when `isInvoke` is
      false runs `fn` synchronously with its own arguments, settles its own
      promise and sets `isInvoke`; a call when it is true runs nothing
      unless the earlier timer has come due. */
  lemma ImmediateCall<A>(s: State<A>, now: int, args: A, id: nat)
    requires Inv(s) && s.immediate
    ensures !s.isInvoke ==>
      Call(s, now, args, id).1 == [Invocation(args, id, now)] && Call(s, now, args, id).0.isInvoke
    ensures s.isInvoke && (s.timer.None? || now < s.timer.value.deadline) ==>
      && Call(s, now, args, id).1 == []
      && Call(s, now, args, id).0.timer == Some(Pending(now + Wait(s.delay), args, id))
  {
  }

  /** A burst: calls only, each arriving before the timer armed by the one
      before it comes due. */
  predicate IsBurst<A>(inputs: seq<Input<A>>, delay: int) {
    && (forall i :: 0 <= i < |inputs| ==> inputs[i].CallAt?)
    && (forall i :: 0 < i < |inputs| ==> inputs[i].now < inputs[i - 1].now + Wait(delay))
  }

  /** In a burst on a non-immediate debouncer with no timer due at the first
      call, `fn` never runs and the one pending timer carries the last
      call's arguments and promise; every earlier promise was dropped. */
  lemma {:induction false} Burst<A>(s: State<A>, inputs: seq<Input<A>>)
    requires !s.immediate && !s.isInvoke && |inputs| > 0 && IsBurst(inputs, s.delay)
    requires s.timer.None? || inputs[0].now < s.timer.value.deadline
    ensures var last := inputs[|inputs| - 1];
      && Run(s, inputs).1 == []
      && Run(s, inputs).0 == s.(timer := Some(Pending(last.now + Wait(s.delay), last.args, last.id)))
    decreases |inputs|
  {
    if |inputs| > 1 {
      var front := inputs[..|inputs| - 1];
      assert IsBurst(front, s.delay) by {
        assert forall i :: 0 <= i < |front| ==> front[i] == inputs[i];
      }
      Burst(s, front);
    }
  }

  /** After a burst, once the clock reaches the last deadline, `fn` runs
      exactly once, with the last call's arguments, settling only the last
      call's promise. */
  lemma BurstThenQuiet<A>(s: State<A>, inputs: seq<Input<A>>, later: int)
    requires !s.immediate && !s.isInvoke && |inputs| > 0 && IsBurst(inputs, s.delay)
    requires s.timer.None? || inputs[0].now < s.timer.value.deadline
    requires later >= inputs[|inputs| - 1].now + Wait(s.delay)
    ensures var last := inputs[|inputs| - 1];
      Run(s, inputs + [TickAt(later)]).1 == [Invocation(last.args, last.id, last.now + Wait(s.delay))]
  {
    Burst(s, inputs);
    var last := inputs[|inputs| - 1];
    TimerFiresOnce(s, inputs, Pending(last.now + Wait(s.delay), last.args, last.id), later);
  }

  /** Inputs that leave exactly one timer and no run behind: a tick at or
      after its deadline runs `fn` once, for that timer's call. */
  lemma TimerFiresOnce<A>(s: State<A>, inputs: seq<Input<A>>, p: Pending<A>, later: int)
    requires Run(s, inputs).1 == [] && Run(s, inputs).0.timer == Some(p)
    requires later >= p.deadline
    ensures Run(s, inputs + [TickAt(later)]).1 == [Invocation(p.args, p.id, p.deadline)]
  {
    RunSnoc(s, inputs, TickAt(later));
  }

  /** After `cancel`, no timer is left to fire: the pending promise never
      settles. */
  lemma CancelSilences<A>(s: State<A>, later: int)
    ensures Tick(Cancel(s), later).1 == []
    ensures !Tick(Cancel(s), later).0.isInvoke
  {
  }
}
