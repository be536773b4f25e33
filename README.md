# Achievement counter — a Dafny model

The application is a single browser widget: a counter that starts at 0 and goes
up by one on each click of an "Increment" button. It stops at 10. On the click
that reaches 10 it fires a particle burst ("confetti"). From then on the button
is disabled and a congratulations banner is shown.

`counter.dfy` (module `CounterComponent`) models the widget as follows:

- `Step` is the updater that `handleClick` passes to `setCount`. It is a pure
  function of the previous count. It returns the new count and a `celebrate`
  flag, which stands for the confetti call.
- `Disabled`, `ShowBanner` and `Render` give the view. These are the button's
  `disabled` attribute, the banner condition and the displayed number, all as
  functions of `count`.
- `Iterate` and `Celebrations` describe `n` activations in a row. The lemmas
  about them give the closed forms (`min(c + n, 10)`, and one celebration or
  none), monotonicity, the set of reachable counts and the fact that the view
  agrees on reachable counts.
- `Counter` is a class for the component's state cell, with the field `count`.
  Its constructor is the mount (`useState(0)`). `Activate` is `handleClick`: it
  applies `Step` to the cell and returns the confetti flag. Two ghost fields
  record how many activations and celebrations there have been, and `Valid()`
  ties them to `Iterate` and `Celebrations`.
- `Session(n)` mounts a fresh counter and activates it `n` times in a loop. It
  returns the final count and how many bursts fired: `min(n, 10)`, and 1 if
  `n >= 10`, otherwise 0.

The count is modelled as an unbounded `int`. The JavaScript `number` in the
source only ever holds the integers 0 to 10, so precision never matters.
`Step` is defined for every integer, including counts above 10 that the mount
cannot reach. It leaves those unchanged, just as the source's `prev >= 10` guard
does.

## Model

| member | source | states |
|---|---|---|
| CounterComponent.Step | src/components/Counter.tsx:9-20 | the count stays the same exactly when it is already at least 10; any change is an increment by one; it never decreases; it never leaves the range with 10 as its top; the celebration fires exactly when the previous count is 9, i.e. when the new count is 10 and differs from the old |
| CounterComponent.Render | src/components/Counter.tsx:25-41 | the number shown is the count; the button is enabled exactly when an activation would change the count; the banner never shows beside an enabled button; for counts 0..10 the banner shows exactly when the button is disabled |
| CounterComponent.Iterate | src/components/Counter.tsx:9-20 | repeated activations never decrease the count, and never take a count at or below 10 above 10 |
| CounterComponent.IterateSnoc | src/components/Counter.tsx:8-21 | one more activation applies the updater to the count reached so far, and adds one celebration exactly when that activation celebrates |
| CounterComponent.IterateAdd | src/components/Counter.tsx:8-21 | m activations followed by k more give the same count as m + k in one run, and the celebrations of the two parts add up |
| CounterComponent.IterateMonotone | src/components/Counter.tsx:10-11 | over any longer run of activations the count is at least as large |
| CounterComponent.IterateClosedForm | src/components/Counter.tsx:10-11 | from any count up to 10, n activations give min(count + n, 10) |
| CounterComponent.CelebrationsClosedForm | src/components/Counter.tsx:12-18 | from any count up to 10, n activations fire one celebration if they reach 10 from below, and none otherwise |
| CounterComponent.IteratePastCap | src/components/Counter.tsx:10 | from a count of 10 or more, activations change nothing and fire nothing |
| CounterComponent.AtMostOneCelebration | src/components/Counter.tsx:12-18 | from any start, a run of activations fires at most one celebration |
| CounterComponent.FromInitial | src/components/Counter.tsx:6-20 | from the initial 0, n activations give count min(n, 10), with exactly one celebration once n is at least 10 and none before |
| CounterComponent.CelebratesOnTenthActivation | src/components/Counter.tsx:6-18 | in a session from 0, the k-th activation fires the celebration if and only if k is 10 |
| CounterComponent.ReachableIff | src/components/Counter.tsx:6-19 | a count can be reached from the initial 0 if and only if it lies in 0..10 |
| CounterComponent.ViewOnReachable | src/components/Counter.tsx:28-37 | on reachable counts the button is disabled exactly when the count is 10, which is exactly when the banner is shown |
| CounterComponent.Counter.constructor | src/components/Counter.tsx:6 | the cell starts at 0, with no activations and no celebrations yet |
| CounterComponent.Counter.Activate | src/components/Counter.tsx:8-21 | the new count and the confetti flag are what the updater gives for the old count; the cell's history invariant is kept; the number of celebrations goes up by one exactly when the flag is set |
| CounterComponent.Counter.View | src/components/Counter.tsx:23-43 | in any state the cell can be in, the number shown lies in 0..10, the button is disabled exactly at 10, and the banner shows exactly when the button is disabled |
| CounterComponent.Session | src/components/Counter.tsx:6-21 | n activations of a freshly mounted counter end at min(n, 10) and fire the particle burst once if n is at least 10, never otherwise |

## Left out

- src/App.tsx: the static page shell (header, icon, layout) has no state and no behaviour.
- JSX markup, Tailwind classes, the `Plus` icon and the CSS animations: cosmetic only. Only the displayed number and the two conditions on the button and the banner are modelled.
- The `canvas-confetti` call and its fixed parameters (particle count 100, spread 70, origin y 0.6): a foreign library with floating-point parameters. It is modelled only as the boolean `celebrate` that `Step` returns and `Activate` hands back.
- React mechanics (`useState`/`useCallback` memoisation, batching, re-render scheduling): framework behaviour. `Activate` applies the updater to the cell immediately.
- React StrictMode may call the updater twice and so fire the confetti twice. That is framework behaviour, not something the component's code promises, so each activation applies the updater exactly once.
- The browser blocks clicks while the button is disabled. This guard is not modelled as a separate step. `Step` is already a no-op at 10 and above (`Render` states that the button is enabled exactly when an activation would change the count), so letting such a click through leaves the same state as blocking it.
- Unmount and reload, which reset the count: there is no operation for them in the component.
