# useThrottle — a Dafny model of the throttling state machine

`useThrottle(value, delay)` is a React hook. It returns a copy of `value` that
changes at most once per `delay` milliseconds, trailing-edge style: the last
value given inside a window is the one that is published when the window ends.

This project models the hook's body (`useThrottle.tsx`, lines 12-34). The
model keeps React's behaviour but states it directly:

- `Throttle.State` holds the published value (`throttledValue`), the
  last-publish time (the `lastExecuted` ref) and at most one armed timer
  (`pending`, an `Option<Timer>`).
- `Throttle.OnInput` is one run of the effect. The previous run's cleanup
  (`clearTimeout`) runs first, as `Throttle.Cancel`. Then either the value is
  published at once, or a timer is armed for the end of the current window.
- `Throttle.Fire` is the timer callback. `Throttle.Advance` lets the clock pass
  a time. A timer whose fire time has come fires then; a timer due at the same
  millisecond as a render fires before that render.
- `UseThrottle.Hook` adds the effect's dependency list `[value, delay]`. A
  re-render (`UseThrottle.Step`) runs the effect only when one of them has
  changed. `UseThrottle.Mount` is the first render plus the first effect run.
  `UseThrottle.Run` is a sequence of re-renders. `UseThrottle.Unmount` runs the
  final cleanup.

Time is an integer number of milliseconds, supplied as a parameter. The clock
is the caller's `now`; the timer service is the `pending` field.

The central results are these:

- `UseThrottle.RunTracks`: after any renders in time order, an armed timer
  holds the current value and fires exactly one window after the last publish.
  When nothing is armed, the current value is already published.
- `UseThrottle.TrailingEdge` and `UseThrottle.Lifetime`: after the renders and
  one further window of silence, the published value is the last value
  rendered.

Four points where the code behaves differently from a plain description of a
throttle:

- The hook does not start out idle. Its first effect run sees almost no
  elapsed time. With a positive `delay` it therefore arms a timer that
  publishes the first value again at `t0 + delay` (`UseThrottle.Mount`,
  `UseThrottle.TypingScenarioMount`).
- Because of that mount timer, inputs spaced a full window apart are not
  always published when they arrive. The timer moves the last publish to
  `t0 + delay`, although the shown value did not change. A new value rendered
  between one and two windows after mount is then deferred until
  `t0 + 2 * delay` (`UseThrottle.MountDefersNextChange`). For example, "a" is
  mounted at 0 with a 1000 ms window and "b" is typed at 1500 ms. A plain
  throttle would show "b" at 1500 ms; this hook shows it at 2000 ms
  (`UseThrottle.MountDefersNextChangeExample`). The promise does hold once the
  hook is idle, with nothing armed and its value shown. That is the case after
  the mount timer has fired, or right after mount when the first effect ran a
  full window late. From then on, renders spaced a window apart are each shown
  when they arrive (`UseThrottle.SpreadRendersPublishAtOnce`).
- The hook does not clamp a negative `delay` to zero. The model accepts any
  integer. Under a clock that does not run backwards, any `delay <= 0` takes
  the immediate branch anyway (`Throttle.NonPositiveDelayPublishesAtOnce`).
- The immediate branch does not cancel a pending timer itself. The previous
  effect run's cleanup does that, and the immediate branch returns no cleanup.
  `Throttle.OnInput` applies `Cancel` first on both branches, which behaves the
  same.

## Model

| member | source | states |
|---|---|---|
| Throttle.Init | src/interview/mustKnowHandwriting/useThrottle.tsx:13-14 | The first input is published, the last-publish time is the creation time, nothing is armed, and the state is valid at the creation time |
| Throttle.Cancel | src/interview/mustKnowHandwriting/useThrottle.tsx:29 | The cleanup clears any armed timer and leaves the published value and the last-publish time unchanged |
| Throttle.OnInput | src/interview/mustKnowHandwriting/useThrottle.tsx:16-31 | If elapsed >= delay: the new value is published now and nothing is armed. Otherwise: published value and last-publish time are unchanged, and exactly one timer is armed, holding the new value and firing at lastExecuted + delay, which is strictly after now. Either way, only the new value can still be published. With a monotone clock the result is valid at `now` and the last-publish time does not decrease |
| Throttle.Fire | src/interview/mustKnowHandwriting/useThrottle.tsx:24-26 | The timer publishes the value captured when it was armed, sets the last-publish time to the fire time (later than before), and leaves nothing armed |
| Throttle.Teardown | src/interview/mustKnowHandwriting/useThrottle.tsx:29 | Unmount cancels the armed timer and keeps the published value and the last-publish time |
| Throttle.Advance | src/interview/mustKnowHandwriting/useThrottle.tsx:24-27 | As the clock reaches `now`, a due timer fires and publishes its value; nothing overdue stays armed; validity is kept and the last-publish time does not decrease |
| Throttle.TeardownIsFinal | src/interview/mustKnowHandwriting/useThrottle.tsx:29 | Teardown is idempotent, and after it no advance of the clock publishes anything |
| Throttle.NonPositiveDelayPublishesAtOnce | src/interview/mustKnowHandwriting/useThrottle.tsx:18-22 | With delay <= 0 and a monotone clock, the input is published at once and nothing is armed |
| UseThrottle.Mount | src/interview/mustKnowHandwriting/useThrottle.tsx:13-27 | After mounting, the first value is shown. A positive window with little elapsed time arms a re-publish of that value at t0 + delay; otherwise it is published at t1. The hook invariant holds |
| UseThrottle.Step | src/interview/mustKnowHandwriting/useThrottle.tsx:16-31 | A re-render commits its value and delay. A timer due by the render's time publishes first, at its fire time. With unchanged dependencies nothing else happens: the hook is unchanged, apart from that timer. With a changed dependency, time is measured from the last publish: a full window elapsed means the new value is shown now with nothing armed; otherwise the shown value stays and one timer holds the new value for one window after the last publish |
| UseThrottle.StepTracks | src/interview/mustKnowHandwriting/useThrottle.tsx:18-29 | A re-render keeps the hook invariant and does not decrease the last-publish time. It publishes only the value already shown, the value committed by the previous render, or the new value. The one-window spacing between publishes is stated by `UseThrottle.StepRateLimit` |
| UseThrottle.StepRateLimit | src/interview/mustKnowHandwriting/useThrottle.tsx:18-27 | Under an unchanged positive window, the timer that may fire during a render and the effect that may follow each publish either nothing or at least one window after the previous publish |
| UseThrottle.RunSpaced | src/interview/mustKnowHandwriting/useThrottle.tsx:18-31 | Over a run of renders in time order with one constant positive window, the state at the end either shows the same value with the same publish time, or was published at least one window after the start |
| UseThrottle.RateLimited | src/interview/mustKnowHandwriting/useThrottle.tsx:5-31 | The value changes at most once per window: for any two prefixes of such a run, either nothing was published in between, or the later publish time is at least one window after the earlier |
| UseThrottle.SpreadRunStaysIdle | src/interview/mustKnowHandwriting/useThrottle.tsx:18-22 | From a hook with nothing armed and its value shown, renders in time order, each at least its window after the previous one, keep it so; the last publish is no later than the last render |
| UseThrottle.SpreadRendersPublishAtOnce | src/interview/mustKnowHandwriting/useThrottle.tsx:18-22 | From such an idle hook, every render spaced a window after the previous one (the first a window after the last publish) is shown by that render, with nothing armed |
| UseThrottle.MountDefersNextChange | src/interview/mustKnowHandwriting/useThrottle.tsx:14-27 | A new value rendered between one and two windows after mount is deferred to t0 + 2 * window, because the mount's re-publish timer moved the last publish to t0 + window |
| UseThrottle.MountDefersNextChangeExample | src/interview/mustKnowHandwriting/useThrottle.tsx:14-27 | "a" mounted at 0 with 1000 ms, then "b" at 1500 ms: "a" is still shown, its publish time is 1000, and "b" is armed for 2000 |
| UseThrottle.Run | src/interview/mustKnowHandwriting/useThrottle.tsx:31 | After a non-empty sequence of re-renders, the committed dependencies are those of the last render; after an empty one, nothing changes |
| UseThrottle.Unmount | src/interview/mustKnowHandwriting/useThrottle.tsx:29 | The final cleanup leaves nothing armed, keeps the shown value, and no later time publishes anything |
| UseThrottle.RunTracks | src/interview/mustKnowHandwriting/useThrottle.tsx:18-31 | For renders in time order, the hook invariant holds at the last render's time: an armed timer holds the current value and fires one window after the last publish, and otherwise the current value is shown. The last-publish time does not decrease |
| UseThrottle.Settles | src/interview/mustKnowHandwriting/useThrottle.tsx:24-27 | One full window after the last render, the current value is shown and nothing is armed |
| UseThrottle.TrailingEdge | src/interview/mustKnowHandwriting/useThrottle.tsx:20-31 | After renders in time order and one further window of silence, the shown value is the last value rendered |
| UseThrottle.Lifetime | src/interview/mustKnowHandwriting/useThrottle.tsx:12-33 | For the hook's whole life, from mount through re-renders and then a window of silence, the returned value is the last value rendered, or the first value if there were no re-renders |
| UseThrottle.NoStalePublish | src/interview/mustKnowHandwriting/useThrottle.tsx:24-29 | After renders in time order, an armed timer holds the last rendered value; with nothing armed, that value is already shown |
| UseThrottle.LastExecutedNeverDecreases | src/interview/mustKnowHandwriting/useThrottle.tsx:20-27 | For any two prefixes of a render sequence in time order, the longer prefix's last-publish time is no earlier |
| UseThrottle.NonPositiveDelayNeverDefers | src/interview/mustKnowHandwriting/useThrottle.tsx:18-22 | When every window is <= 0, each render's value is shown right after that render and nothing is ever armed |
| UseThrottle.TypingScenarioMount | src/interview/mustKnowHandwriting/useThrottle.tsx:13-27 | Mounting with "a" and a 1000 ms window at time 0 shows "a" and arms a re-publish for 1000 ms |
| UseThrottle.TypingScenario | src/interview/mustKnowHandwriting/useThrottle.tsx:18-31 | "ab" at 200 ms and "abc" at 500 ms publish nothing at once; each re-arms the timer for 1000 ms, and "abc" is published at 1000 ms |
| UseThrottle.ZeroDelayScenario | src/interview/mustKnowHandwriting/useThrottle.tsx:18-22 | With a zero window, "a", "ab" and "abc" are each published at the moment they are rendered |

## Left out

- `ThrottleDemo` (lines 36-48) is the demo component: JSX, an input widget and rendering. It is not part of the throttling logic.
- React's own machinery is not modelled: `useState`, `useRef`, effect scheduling and re-render triggering. They appear as the explicit `Hook` record, the `Step` transition and the cleanup step. A publish triggers a re-render with unchanged dependencies, so it runs no effect. The model therefore leaves that re-render implicit.
- `Date.now()` becomes an integer parameter. Properties that need a monotone clock require one. Clock skew is not modelled.
- Timer jitter is not modelled: the callback's `Date.now()` is taken to be exactly the scheduled fire time.
- Asynchrony is reduced to interleaving. A timer fires atomically as the clock passes its fire time. A timer due at the same millisecond as a render fires first; the browser may order the two either way.
- JavaScript numbers are reduced to integers. Fractional, infinite and NaN delays and times are not modelled.
- `Object.is` on the dependency list is modelled as Dafny equality on `T`. For object values, `Object.is` compares references; the model compares values.
- Throttle.OnInput: arms its timer for `lastExecuted + delay` with an unbounded integer. `setTimeout` converts its delay to a signed 32-bit value, so a remaining window above 2147483647 ms does not wait as long as asked. Browsers wrap the delay modulo 2^32 and treat a negative result as 0, so a window in [2^31, 2^32) ms fires at once. Node.js sets such a delay to 1 ms. The model does not reproduce this, because the behaviour depends on the host and only matters for remaining windows longer than about 24.8 days.
