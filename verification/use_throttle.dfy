/**
  The `useThrottle` hook as React drives it: one instance is mounted, then
  re-rendered with a `(value, delay)` snapshot at nondecreasing times, and
  finally unmounted.  The effect runs only when `value` or `delay` differs
  from the last committed render; each run is preceded by the previous run's
  cleanup.  Timers fire as the clock passes their fire time.
*/
module UseThrottle {

  import opened Wrappers
  import opened Throttle

  /** A mounted hook: its throttle state and the effect dependencies
      `[value, delay]` of the last render. */
  datatype Hook<T> = Hook(state: State<T>, value: T, delay: int)

  /** A re-render of the host at time `at` with the given hook arguments. */
  datatype Render<T> = Render(value: T, delay: int, at: int)

  /** The hook invariant at time `clock`: an armed timer carries the current
      `value` and fires one window after the last publish; with nothing armed,
      the current `value` is already published. */
  ghost predicate Tracking<T>(h: Hook<T>, clock: int) {
    && ValidAt(h.state, clock)
    && match h.state.pending
       case None => h.state.published == h.value
       case Some(tm) => tm.value == h.value && tm.fireAt == h.state.lastExecuted + h.delay
  }

  /** Render times never run backwards, starting from `clock`. */
  predicate Ordered<T>(clock: int, renders: seq<Render<T>>)
    decreases |renders|
  {
    |renders| == 0 || (clock <= renders[0].at && Ordered(renders[0].at, renders[1..]))
  }

  /** The clock after `renders`, starting from `clock`. */
  function LastAt<T>(clock: int, renders: seq<Render<T>>): (t: int) {
    if |renders| == 0 then clock else renders[|renders| - 1].at
  }

  /** Creation at `t0` followed by the first effect run at `t1`.  That run
      sees almost no elapsed time, so a positive window arms a timer that
      re-publishes the first value at `t0 + delay`. */
  function Mount<T>(v: T, delay: int, t0: int, t1: int): (h: Hook<T>)
    ensures h.state.published == v && h.value == v && h.delay == delay
    ensures t1 - t0 < delay ==>
      h.state.lastExecuted == t0 && h.state.pending == Some(Timer(v, t0 + delay))
    ensures t1 - t0 >= delay ==> h.state.lastExecuted == t1 && h.state.pending == None
    ensures t0 <= t1 ==> Tracking(h, t1)
  {
    Hook(OnInput(Init(v, t0), v, delay, t1), v, delay)
  }

  /** One re-render at time `r.at`.  Timers due by then fire first; the
      effect (cleanup, then a fresh run) happens only if a dependency
      changed. */
  function Step<T(==)>(h: Hook<T>, r: Render<T>): (h': Hook<T>)
    ensures h'.value == r.value && h'.delay == r.delay
    // a timer due by `r.at` publishes its value at its fire time, before any effect
    ensures h.state.pending.Some? && h.state.pending.value.fireAt <= r.at ==>
      h'.state.lastExecuted >= h.state.pending.value.fireAt
    // unchanged dependencies: no effect runs
    ensures r.value == h.value && r.delay == h.delay ==>
      if h.state.pending.Some? && h.state.pending.value.fireAt <= r.at then
        h'.state == State(h.state.pending.value.value, h.state.pending.value.fireAt, None)
      else
        h' == h
    // changed dependencies: measured from the last publish `last` (after any due timer),
    // the new value is shown now or armed for one window after `last`
    ensures r.value != h.value || r.delay != h.delay ==>
      var due := h.state.pending.Some? && h.state.pending.value.fireAt <= r.at;
      var last := if due then h.state.pending.value.fireAt else h.state.lastExecuted;
      var shown := if due then h.state.pending.value.value else h.state.published;
      if r.at - last >= r.delay then
        h'.state == State(r.value, r.at, None)
      else
        h'.state == State(shown, last, Some(Timer(r.value, last + r.delay)))
  {
    var s := Advance(h.state, r.at);
    if r.value == h.value && r.delay == h.delay then
      h.(state := s)
    else
      Hook(OnInput(s, r.value, r.delay, r.at), r.value, r.delay)
  }

  /** A render keeps the hook invariant, never moves the last publish back,
      and publishes nothing but the value already shown, the value the
      previous render committed (by its timer), or the new value. */
  lemma StepTracks<T>(h: Hook<T>, clock: int, r: Render<T>)
    requires Tracking(h, clock) && clock <= r.at
    ensures Tracking(Step(h, r), r.at)
    ensures h.state.lastExecuted <= Step(h, r).state.lastExecuted
    ensures Step(h, r).state.published == h.state.published
         || Step(h, r).state.published == h.value
         || Step(h, r).state.published == r.value
  {
  }

  /** The rate limit, for one render under an unchanged positive window:
      both the timer that may fire first and the effect that may follow it
      publish at least one window after the previous publish. */
  lemma StepRateLimit<T>(h: Hook<T>, clock: int, r: Render<T>)
    requires Tracking(h, clock) && clock <= r.at
    requires h.delay == r.delay && r.delay > 0
    ensures Spaced(h.state, Advance(h.state, r.at), r.delay)
    ensures Spaced(Advance(h.state, r.at), Step(h, r).state, r.delay)
    ensures Spaced(h.state, Step(h, r).state, r.delay)
  {
    SpacedTransitive(h.state, Advance(h.state, r.at), Step(h, r).state, r.delay);
  }

  /** A sequence of re-renders, in order. */
  function Run<T(==)>(h: Hook<T>, renders: seq<Render<T>>): (h': Hook<T>)
    ensures |renders| == 0 ==> h' == h
    ensures |renders| > 0 ==>
      h'.value == renders[|renders| - 1].value && h'.delay == renders[|renders| - 1].delay
    decreases |renders|
  {
    if |renders| == 0 then h else Run(Step(h, renders[0]), renders[1..])
  }

  /** Unmounting runs the last cleanup; afterwards no timer can publish. */
  function Unmount<T>(h: Hook<T>): (s: State<T>)
    ensures s.published == h.state.published && s.lastExecuted == h.state.lastExecuted
    ensures s.pending == None
    ensures forall t :: Advance(s, t) == s
  {
    Teardown(h.state)
  }

  lemma {:induction false} RunAppend<T>(h: Hook<T>, a: seq<Render<T>>, b: seq<Render<T>>)
    ensures Run(h, a + b) == Run(Run(h, a), b)
    decreases |a|
  {
    if |a| > 0 {
      assert (a + b)[1..] == a[1..] + b;
      RunAppend(Step(h, a[0]), a[1..], b);
    } else {
      assert a + b == b;
    }
  }

  lemma {:induction false} OrderedAppend<T>(clock: int, a: seq<Render<T>>, b: seq<Render<T>>)
    ensures Ordered(clock, a + b) <==> Ordered(clock, a) && Ordered(LastAt(clock, a), b)
    decreases |a|
  {
    if |a| > 0 {
      assert (a + b)[1..] == a[1..] + b;
      assert (a + b)[0] == a[0];
      OrderedAppend(a[0].at, a[1..], b);
      assert LastAt(a[0].at, a[1..]) == LastAt(clock, a);
    } else {
      assert a + b == b;
    }
  }

  /** Every render keeps the hook invariant, and the last-publish time never
      goes backwards. */
  lemma {:induction false} RunTracks<T>(h: Hook<T>, clock: int, renders: seq<Render<T>>)
    requires Tracking(h, clock) && Ordered(clock, renders)
    ensures Tracking(Run(h, renders), LastAt(clock, renders))
    ensures h.state.lastExecuted <= Run(h, renders).state.lastExecuted
    decreases |renders|
  {
    if |renders| > 0 {
      var h1 := Step(h, renders[0]);
      StepTracks(h, clock, renders[0]);
      RunTracks(h1, renders[0].at, renders[1..]);
      assert LastAt(renders[0].at, renders[1..]) == LastAt(clock, renders);
    }
  }

  /** Once the clock is a full window past the last render, the current value
      is published and nothing is armed. */
  lemma Settles<T>(h: Hook<T>, clock: int, t: int)
    requires Tracking(h, clock) && clock + h.delay <= t
    ensures Advance(h.state, t).published == h.value
    ensures Advance(h.state, t).pending == None
  {
  }

  /** Trailing edge: after any renders in time order and a further silence of
      one window, the throttled value is the last value rendered. */
  lemma TrailingEdge<T>(h: Hook<T>, clock: int, renders: seq<Render<T>>, t: int)
    requires Tracking(h, clock) && Ordered(clock, renders) && |renders| > 0
    requires renders[|renders| - 1].at + renders[|renders| - 1].delay <= t
    ensures Advance(Run(h, renders).state, t).published == renders[|renders| - 1].value
    ensures Advance(Run(h, renders).state, t).pending == None
  {
    RunTracks(h, clock, renders);
    Settles(Run(h, renders), LastAt(clock, renders), t);
  }

  /** The whole life of a hook: mounted with `v` at `t0`, first effect at
      `t1`, re-rendered, then left alone for a window: the last value wins. */
  lemma Lifetime<T>(v: T, delay: int, t0: int, t1: int, renders: seq<Render<T>>, t: int)
    requires t0 <= t1 && Ordered(t1, renders)
    requires LastAt(t1, renders) + (if |renders| == 0 then delay else renders[|renders| - 1].delay) <= t
    ensures Advance(Run(Mount(v, delay, t0, t1), renders).state, t).published ==
      (if |renders| == 0 then v else renders[|renders| - 1].value)
  {
    RunTracks(Mount(v, delay, t0, t1), t1, renders);
    Settles(Run(Mount(v, delay, t0, t1), renders), LastAt(t1, renders), t);
  }

  /** The rate limit over a run with a constant positive window `window`:
      from the start to the end of the run, either nothing was published or
      the last publish is at least one window later. */
  lemma {:induction false} RunSpaced<T>(h: Hook<T>, clock: int, renders: seq<Render<T>>, window: int)
    requires Tracking(h, clock) && Ordered(clock, renders)
    requires window > 0 && h.delay == window
    requires forall i :: 0 <= i < |renders| ==> renders[i].delay == window
    ensures Spaced(h.state, Run(h, renders).state, window)
    decreases |renders|
  {
    if |renders| > 0 {
      var h1 := Step(h, renders[0]);
      StepTracks(h, clock, renders[0]);
      StepRateLimit(h, clock, renders[0]);
      RunSpaced(h1, renders[0].at, renders[1..], window);
      SpacedTransitive(h.state, h1.state, Run(h1, renders[1..]).state, window);
    }
  }

  /** The value changes at most once per window: comparing the states after
      any two prefixes of a run with a constant positive window, either
      nothing was published in between or the publish times are at least one
      window apart. */
  lemma RateLimited<T>(h: Hook<T>, clock: int, renders: seq<Render<T>>, window: int, j: nat, k: nat)
    requires Tracking(h, clock) && Ordered(clock, renders)
    requires window > 0 && h.delay == window
    requires forall i :: 0 <= i < |renders| ==> renders[i].delay == window
    requires j <= k <= |renders|
    ensures Spaced(Run(h, renders[..j]).state, Run(h, renders[..k]).state, window)
  {
    var a, b, c := renders[..j], renders[j..k], renders[k..];
    assert renders == a + (b + c);
    assert renders[..k] == a + b;
    OrderedAppend(clock, a, b + c);
    OrderedAppend(LastAt(clock, a), b, c);
    RunTracks(h, clock, a);
    RunSpaced(Run(h, a), LastAt(clock, a), b, window);
    RunAppend(h, a, b);
  }

  /** Nothing is armed and the current value is shown. */
  ghost predicate Idle<T>(h: Hook<T>) {
    h.state.pending == None && h.state.published == h.value
  }

  /** Each render comes at least its own window after the render before it;
      the first, at least its window after `start`. */
  predicate Spread<T>(start: int, renders: seq<Render<T>>) {
    && (|renders| > 0 ==> start + renders[0].delay <= renders[0].at)
    && forall i :: 0 < i < |renders| ==> renders[i - 1].at + renders[i].delay <= renders[i].at
  }

  /** From an idle hook whose last publish is no later than `clock`, renders
      spread a window apart leave the hook idle: each value is shown when it
      is rendered. */
  lemma {:induction false} SpreadRunStaysIdle<T>(h: Hook<T>, clock: int, renders: seq<Render<T>>)
    requires Idle(h) && h.state.lastExecuted <= clock
    requires Ordered(clock, renders) && Spread(clock, renders)
    ensures Idle(Run(h, renders))
    ensures Run(h, renders).state.lastExecuted <= LastAt(clock, renders)
    decreases |renders|
  {
    if |renders| > 0 {
      var h1 := Step(h, renders[0]);
      assert Idle(h1) && h1.state.lastExecuted <= renders[0].at;
      var rest := renders[1..];
      assert Spread(renders[0].at, rest) by {
        if |rest| > 0 {
          assert rest[0] == renders[1];
        }
        forall i | 0 < i < |rest|
          ensures rest[i - 1].at + rest[i].delay <= rest[i].at
        {
          assert rest[i - 1] == renders[i] && rest[i] == renders[i + 1];
        }
      }
      SpreadRunStaysIdle(h1, renders[0].at, rest);
      assert LastAt(renders[0].at, rest) == LastAt(clock, renders);
    }
  }

  /** Where the plain throttle promise holds: from an idle hook, renders in
      time order, each at least its window after the previous one (the first
      a window after the last publish), are each shown at once, with nothing
      armed. */
  lemma SpreadRendersPublishAtOnce<T>(h: Hook<T>, renders: seq<Render<T>>, k: nat)
    requires Idle(h)
    requires Ordered(h.state.lastExecuted, renders) && Spread(h.state.lastExecuted, renders)
    requires 0 < k <= |renders|
    ensures Run(h, renders[..k]).state.published == renders[k - 1].value
    ensures Run(h, renders[..k]).state.pending == None
    ensures Run(h, renders[..k]).state.lastExecuted <= renders[k - 1].at
  {
    var a, b := renders[..k], renders[k..];
    assert renders == a + b;
    OrderedAppend(h.state.lastExecuted, a, b);
    assert Spread(h.state.lastExecuted, a) by {
      forall i | 0 < i < |a|
        ensures a[i - 1].at + a[i].delay <= a[i].at
      {
        assert a[i - 1] == renders[i - 1] && a[i] == renders[i];
      }
    }
    SpreadRunStaysIdle(h, h.state.lastExecuted, a);
  }

  /** Only the newest value can still be published: whatever is armed after a
      render carries that render's value. */
  lemma NoStalePublish<T>(h: Hook<T>, clock: int, renders: seq<Render<T>>)
    requires Tracking(h, clock) && Ordered(clock, renders) && |renders| > 0
    ensures Run(h, renders).state.pending.Some? ==>
      Run(h, renders).state.pending.value.value == renders[|renders| - 1].value
    ensures Run(h, renders).state.pending.None? ==>
      Run(h, renders).state.published == renders[|renders| - 1].value
  {
    RunTracks(h, clock, renders);
  }

  /** The last-publish time never decreases along a run: compared after any
      two prefixes of the renders. */
  lemma LastExecutedNeverDecreases<T>(h: Hook<T>, clock: int, renders: seq<Render<T>>, j: nat, k: nat)
    requires Tracking(h, clock) && Ordered(clock, renders)
    requires j <= k <= |renders|
    ensures Run(h, renders[..j]).state.lastExecuted <= Run(h, renders[..k]).state.lastExecuted
  {
    var a, b, c := renders[..j], renders[j..k], renders[k..];
    assert renders == a + b + c;
    assert renders == a + (b + c);
    assert renders[..k] == a + b;
    OrderedAppend(clock, a, b + c);
    OrderedAppend(LastAt(clock, a), b, c);
    RunTracks(h, clock, a);
    RunTracks(Run(h, a), LastAt(clock, a), b);
    RunAppend(h, a, b);
  }

  /** With windows of zero or less, every render's value is published by
      that render and nothing is ever armed. */
  lemma NonPositiveDelayNeverDefers<T>(h: Hook<T>, clock: int, renders: seq<Render<T>>, k: nat)
    requires Tracking(h, clock) && Ordered(clock, renders)
    requires forall i :: 0 <= i < |renders| ==> renders[i].delay <= 0
    requires 0 < k <= |renders|
    ensures Run(h, renders[..k]).state.published == renders[k - 1].value
    ensures Run(h, renders[..k]).state.pending == None
  {
    var a, b := renders[..k], renders[k..];
    assert renders == a + b;
    OrderedAppend(clock, a, b);
    RunTracks(h, clock, a);
  }

  /** Typing "a" into a box throttled at 1000 ms, first effect at once:
      "a" is shown and a re-publish of it is armed for 1000 ms. */
  lemma TypingScenarioMount()
    ensures Mount("a", 1000, 0, 0) == Hook(State("a", 0, Some(Timer("a", 1000))), "a", 1000)
  {
  }

  /** Typing "ab" at 200 ms and "abc" at 500 ms into that box: nothing is
      published at either keystroke, the armed timer is replaced each time,
      and "abc" is published when it fires at 1000 ms.  The hook after mount
      is a parameter, equal to `Mount("a", 1000, 0, 0)` by
      `TypingScenarioMount`: with `Mount` applied to literals in the
      contract, the verifier evaluates every unfolding of `Step` and runs out
      of resources. */
  lemma TypingScenario(h0: Hook<string>)
    requires h0 == Hook(State("a", 0, Some(Timer("a", 1000))), "a", 1000)
    ensures Step(h0, Render("ab", 1000, 200)).state == State("a", 0, Some(Timer("ab", 1000)))
    ensures Run(h0, [Render("ab", 1000, 200), Render("abc", 1000, 500)]).state
      == State("a", 0, Some(Timer("abc", 1000)))
    ensures Advance(Run(h0, [Render("ab", 1000, 200), Render("abc", 1000, 500)]).state, 1000)
      == State("abc", 1000, None)
  {
    var r1, r2 := Render("ab", 1000, 200), Render("abc", 1000, 500);
    var h1 := Hook(State("a", 0, Some(Timer("ab", 1000))), "ab", 1000);
    var h2 := Hook(State("a", 0, Some(Timer("abc", 1000))), "abc", 1000);
    assert Step(h0, r1) == h1 by {
      assert r1.value != h0.value by { assert |r1.value| == 2; }
    }
    assert Step(h1, r2) == h2 by {
      assert r2.value != h1.value by { assert |r2.value| == 3; }
    }
    assert [r1, r2][1..] == [r2];
    assert Run(h1, [r2]) == h2;
  }

  /** The mount's re-publish timer counts as a publish: it moves the last
      publish to `t0 + window`.  A new value rendered between one and two
      windows after mount is therefore deferred to `t0 + 2 * window`, though
      the value shown last changed at `t0`. */
  lemma MountDefersNextChange<T>(v: T, w: T, window: int, t0: int, t: int)
    requires window > 0 && t0 + window <= t < t0 + 2 * window && w != v
    ensures Step(Mount(v, window, t0, t0), Render(w, window, t)).state
      == State(v, t0 + window, Some(Timer(w, t0 + 2 * window)))
  {
    var h0 := Mount(v, window, t0, t0);
    assert h0.state == State(v, t0, Some(Timer(v, t0 + window)));
    assert Advance(h0.state, t) == State(v, t0 + window, None);
  }

  /** The same, concretely: "a" is mounted at 0 with a 1000 ms window and
      "b" typed at 1500 ms is shown only at 2000 ms. */
  lemma MountDefersNextChangeExample()
    ensures Step(Mount("a", 1000, 0, 0), Render("b", 1000, 1500)).state
      == State("a", 1000, Some(Timer("b", 2000)))
  {
    MountDefersNextChange("a", "b", 1000, 0, 1500);
  }

  /** With a zero window every keystroke is published at once. */
  lemma ZeroDelayScenario(h0: Hook<string>)
    requires h0 == Mount("a", 0, 0, 0)
    ensures h0.state == State("a", 0, None)
    ensures Step(h0, Render("ab", 0, 200)).state == State("ab", 200, None)
    ensures Run(h0, [Render("ab", 0, 200), Render("abc", 0, 500)]).state
      == State("abc", 500, None)
  {
    var r1, r2 := Render("ab", 0, 200), Render("abc", 0, 500);
    assert r1.value != h0.value by { assert |r1.value| == 2; }
    var h1 := Step(h0, r1);
    assert h1.state == State("ab", 200, None);
    assert r2.value != h1.value by { assert |r2.value| == 3; }
    var h2 := Step(h1, r2);
    assert h2.state == State("abc", 500, None);
    assert [r1, r2][1..] == [r2];
    assert Run(h1, [r2]) == h2;
  }
}
