/**
  The throttling state machine of the `useThrottle` hook, with React, the
  wall clock and the timer service made explicit.

  Time is an integer number of milliseconds supplied by the caller.  The
  `setTimeout` handle becomes the `pending` field: a state holds at most one
  armed timer, and the effect cleanup (`clearTimeout`) becomes `Cancel`.
*/
module Throttle {

  import opened Wrappers

  /** An armed `setTimeout`: the value captured when the effect ran, and the
      time at which the callback fires. */
  datatype Timer<T> = Timer(value: T, fireAt: int)

  /** `published` is the hook's `throttledValue`, `lastExecuted` the ref of
      the last publish, `pending` the timer armed by the last effect run. */
  datatype State<T> = State(published: T, lastExecuted: int, pending: Option<Timer<T>>)

  /** An armed timer always fires strictly after the last publish. */
  predicate Valid<T>(s: State<T>) {
    s.pending.Some? ==> s.lastExecuted < s.pending.value.fireAt
  }

  /** `s` is a state the hook can be in when the clock reads `clock`: the last
      publish lies in the past and an armed timer has not yet fired. */
  predicate ValidAt<T>(s: State<T>, clock: int) {
    && Valid(s)
    && s.lastExecuted <= clock
    && (s.pending.Some? ==> clock < s.pending.value.fireAt)
  }

  /** `b` follows `a` under a throttle window `window`: either nothing was
      published in between, or the last publish of `b` lies at least one
      window after that of `a`. */
  ghost predicate Spaced<T>(a: State<T>, b: State<T>, window: int) {
    || (b.lastExecuted == a.lastExecuted && b.published == a.published)
    || a.lastExecuted + window <= b.lastExecuted
  }

  /** Spacing composes along a run when the window is positive. */
  lemma SpacedTransitive<T>(a: State<T>, b: State<T>, c: State<T>, window: int)
    requires window > 0 && Spaced(a, b, window) && Spaced(b, c, window)
    ensures Spaced(a, c, window)
  {
  }

  /** The state created by the first render at time `t0`: the first input is
      published at once and the publish time is the creation time. */
  function Init<T>(v: T, t0: int): (s: State<T>)
    ensures s.published == v && s.lastExecuted == t0
    ensures s.pending == None
    ensures ValidAt(s, t0)
  {
    State(v, t0, None)
  }

  /** The effect cleanup: clears the armed timer, if any. */
  function Cancel<T>(s: State<T>): (r: State<T>)
    ensures r.pending == None
    ensures r.published == s.published && r.lastExecuted == s.lastExecuted
  {
    s.(pending := None)
  }

  /** One run of the effect at time `now` for the input `v` and window
      `delay`, preceded by the previous run's cleanup.  Either the input is
      published at once, or exactly one timer is armed for the end of the
      window that started at the last publish. */
  function OnInput<T>(s: State<T>, v: T, delay: int, now: int): (r: State<T>)
    // immediate branch
    ensures now - s.lastExecuted >= delay ==>
      r.published == v && r.lastExecuted == now && r.pending == None
    // deferred branch
    ensures now - s.lastExecuted < delay ==>
      && r.published == s.published
      && r.lastExecuted == s.lastExecuted
      && r.pending == Some(Timer(v, s.lastExecuted + delay))
      && now < r.pending.value.fireAt
    // whatever was pending before is gone: only the newest input can still be published
    ensures r.pending.Some? ==> r.pending.value.value == v
    ensures r.published == s.published || r.published == v
    // with a clock that has not run backwards, the result is a state of time `now`
    ensures now >= s.lastExecuted ==> ValidAt(r, now) && s.lastExecuted <= r.lastExecuted
  {
    var c := Cancel(s);
    var elapsed := now - c.lastExecuted;
    if elapsed >= delay then
      c.(published := v, lastExecuted := now)
    else
      c.(pending := Some(Timer(v, now + (delay - elapsed))))
  }

  /** The armed timer's callback: publishes the value captured when it was
      armed, with the fire time as the new publish time. */
  function Fire<T>(s: State<T>): (r: State<T>)
    requires s.pending.Some?
    ensures r.published == s.pending.value.value
    ensures r.lastExecuted == s.pending.value.fireAt
    ensures r.pending == None
    ensures Valid(s) ==> s.lastExecuted < r.lastExecuted
  {
    State(s.pending.value.value, s.pending.value.fireAt, None)
  }

  /** Unmounting: the last effect's cleanup clears the armed timer. */
  function Teardown<T>(s: State<T>): (r: State<T>)
    ensures r.pending == None
    ensures r.published == s.published && r.lastExecuted == s.lastExecuted
  {
    Cancel(s)
  }

  /** The clock advances to `now`: an armed timer that is due by then fires
      (one due exactly at `now` fires before anything else happens at `now`). */
  function Advance<T>(s: State<T>, now: int): (r: State<T>)
    ensures r == s || (s.pending.Some? && r == Fire(s))
    ensures s.pending.Some? && s.pending.value.fireAt <= now ==>
      r.published == s.pending.value.value && r.pending == None
    ensures r.pending.Some? ==> r.pending == s.pending && now < r.pending.value.fireAt
    ensures forall clock | clock <= now && ValidAt(s, clock) :: ValidAt(r, now)
    ensures Valid(s) ==> s.lastExecuted <= r.lastExecuted
  {
    if s.pending.Some? && s.pending.value.fireAt <= now then Fire(s) else s
  }

  /** Teardown is idempotent, and after it no timer fires, however far the
      clock advances: nothing is published into an unmounted hook. */
  lemma TeardownIsFinal<T>(s: State<T>, now: int)
    ensures Teardown(Teardown(s)) == Teardown(s)
    ensures Advance(Teardown(s), now) == Teardown(s)
  {
  }

  /** With a window of zero or less and a clock that has not run backwards,
      every input is published at once and nothing is armed. */
  lemma NonPositiveDelayPublishesAtOnce<T>(s: State<T>, v: T, delay: int, now: int)
    requires delay <= 0 && s.lastExecuted <= now
    ensures OnInput(s, v, delay, now) == State(v, now, None)
  {
  }
}
