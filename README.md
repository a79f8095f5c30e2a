# Timeline ring: selection and rotation

A Dafny model of the circular selection engine of the `Timeline` React
component (`src/Timeline.tsx`). A ring of `n` dots, one per timeline entry,
is turned so that the active dot sits at a fixed reference axis. Selecting
another dot looks up that dot's offset from the active one, turns the ring
the short way round (never more than 180 degrees), counter-turns every dot
container by the same amount so the labels stay upright, and only then makes
the dot active. Around this sit the mount layout effect (pre-rotating the
dots) and its exact inverse, the year counters that are tweened only when
the displayed year differs, and the one-shot `renderCount` that keeps the
event list from fading in on the first render.

Angles are counted in integer steps of `360/n` degrees: a dot `k` steps away
is `k * (360/n)` degrees away, and the source's test `deg > 180` becomes
`2 * k > n`. `Planner.Degrees` turns steps back into degrees (as `real`), and
`Planner.Decide` and `Planner.DegreesAbove180` state the branch in degrees.

Modules:

- `Arith` — remainder facts used by the alignment proofs (helpers).
- `Geometry` — `getDotsDegrees` (as the method `GetDotsDegrees` proved
  against the function `DotsDegrees`), the offset `(t - a) mod n`, and
  `Array.prototype.find` on the dot list.
- `Planner` — the decision inside `setActiveDot`, the signed turn that
  `rotateCircle` applies, and what a sequence of selections does to the ring.
  `Turn` writes that signed turn in closed form from the offset;
  `DeltaOfSelection` proves it equal to the turn planned through the dot list,
  and the class and `Replay` are stated with it.
- `Timeline` — class `Ring`: the component's mutable state (`activeIndex`,
  the circle's rotation, the `dotRot` array of container rotations, the year
  texts, `renderCount`, the pending fade-in) and its operations.
- `Lifecycle` — one lifetime of the component as React drives it: mount,
  a run of dot clicks and prev/next presses, unmount.

Where the code departs from the selector's intended behaviour, the model
follows the code:

- Selecting a dot and then the previously active one does not always net
  zero rotation. When the target is diametrically opposite (offset exactly
  half a turn, only for even `n`), both moves take the `-= deg` branch, so
  the ring ends one full turn (-360 degrees) further (`Planner.RoundTrip`).
- An out-of-range index is not ignored silently: `find(...)!` yields
  undefined and reading `.deg` throws. `Planner.PlanSelection` returns
  `Missing` for it, and `Ring.SetActiveDot` requires an index in range.
- `showPrev`/`showNext` have no boundary check of their own. The no-op at
  the first and last dot comes from the disabled buttons (`Ring.PressPrev`,
  `Ring.PressNext`).
- The first-render flag is not set when the layout effect runs. The list-fade
  effect sets it on its own first run (`Ring.OnActiveChanged`).

## Model

| member | source | states |
|---|---|---|
| Geometry.GetDotsDegrees | src/Timeline.tsx:311-325 | the loop-built, slice/concat-rotated, map-numbered list equals `DotsDegrees(a, n)` |
| Geometry.DotsDegreesAt | src/Timeline.tsx:319-323 | entry `j` is dot `(a + j) mod n` at offset `j` steps (`j * 360/n` degrees) |
| Geometry.DotsDegreesShape | src/Timeline.tsx:311-325 | exactly `n` entries, the active dot first at offset 0, every index in `[0, n)`, offsets `0, 1, ..., n-1`: strictly increasing and below a full turn |
| Geometry.DotsDegreesPermutation | src/Timeline.tsx:311-325 | dot `t` sits at position `(t - a) mod n` with that offset, and no two entries hold the same dot |
| Geometry.OffsetIsMod | src/Timeline.tsx:319-323 | the offset of `t` from `a` is `(t - a) mod n`, and stepping that far from `a` lands on `t` |
| Geometry.Find | src/Timeline.tsx:286 | `find` returns an entry of the list with the requested index, and returns nothing exactly when no entry has it |
| Geometry.FindFirst | src/Timeline.tsx:286 | `find` returns the first entry whose index matches |
| Geometry.FindOffset | src/Timeline.tsx:286 | looking up dot `t` in the active dot's list gives offset `(t - a) mod n`; an index outside `[0, n)` is not found |
| Planner.DegreesAbove180 | src/Timeline.tsx:288 | `deg > 180` holds exactly when the offset is more than half of the `n` steps |
| Planner.Decide | src/Timeline.tsx:288-291 | the flag is `deg > 180`, and the magnitude is `360 - deg` degrees when it is set and `deg` otherwise |
| Planner.DecideBounded | src/Timeline.tsx:288-296 | a nonzero offset turns by more than 0 and at most 180 degrees; an offset of exactly 180 degrees takes the second branch |
| Planner.PlanSelectionCases | src/Timeline.tsx:283-291 | the active index plans nothing, an index outside `[0, n)` is missing, any other target is planned from its offset to the current active dot |
| Planner.PlanExamples | src/Timeline.tsx:283-297 | six dots: dot 1 turns 60 degrees back, dot 4 (240 degrees) turns 120 degrees forward; four dots: dot 2 (180 degrees) turns back |
| Planner.DeltaOfSelection | src/Timeline.tsx:244-297 | the turn planned through the dot list is the closed-form `Turn`: none for the active dot, `+(n - k)` steps when the offset `k` is past half a turn, `-k` otherwise |
| Planner.PlanTurn | src/Timeline.tsx:284-297 | building the dot list, finding the target and testing `deg > 180` yields exactly the planned `rotateCircle` arguments, whose signed turn is `Turn` |
| Planner.NeighbourTurns | src/Timeline.tsx:302-308 | previous dot: one step forward (one back when `n = 2`); next dot: one step back |
| Planner.TurnBounded | src/Timeline.tsx:284-296 | a selection never turns the ring more than half a turn, and turns it not at all exactly when the target is already active |
| Planner.TurnAligns | src/Timeline.tsx:283-299 | the turn (`Turn`, equal to the planned one) is `a - t` steps up to at most one whole turn |
| Planner.SelectionKeepsAligned | src/Timeline.tsx:283-299 | if the active dot sits at the reference axis (ring at `-a` steps mod `n`), the newly selected dot does afterwards |
| Planner.RoundTrip | src/Timeline.tsx:283-299 | selecting `t` and then `a` again nets zero turn, except for the opposite dot, where it nets `-n` steps (-360 degrees) |
| Planner.ReplayAligned | src/Timeline.tsx:283-299 | after any run of selections from an aligned state, the ring is at `-activeIndex` steps mod `n`, and the last target is active |
| Timeline.Ring.constructor | src/Timeline.tsx:17-31 | initial state: dot 0 active, nothing rotated, no year text, `renderCount` 0, no fade pending |
| Timeline.Ring.Init | src/Timeline.tsx:34-59 | dot `i` is turned back by `i` steps (dot 0 untouched), so every label is upright; the year texts show the active entry's years |
| Timeline.Ring.Teardown | src/Timeline.tsx:61-68 | dot `i` is turned forward by `i` steps, the exact inverse of `Init`, so every container again cancels the circle's rotation |
| Timeline.Ring.RotateCircle | src/Timeline.tsx:244-270 | the circle turns by `+v` or `-v` and every container by the opposite amount, so circle plus container is unchanged for every dot |
| Timeline.Ring.SetActiveDot | src/Timeline.tsx:283-300 | the ring turns by `Turn` from the old active dot (the plan `PlanTurn` computes), every container by the opposite amount, then the target becomes active; alignment and upright labels are kept, and selecting the active dot changes nothing |
| Timeline.Ring.ShowPrev | src/Timeline.tsx:302-304 | moves to the previous dot, turning the ring one step forward (one back when `n = 2`) |
| Timeline.Ring.ShowNext | src/Timeline.tsx:306-308 | moves to the next dot, turning the ring one step back |
| Timeline.Ring.PressPrev | src/Timeline.tsx:170-176 | the prev button does nothing at dot 0 (year texts and fades untouched); otherwise it moves to the previous dot, turning the ring one step forward (one back when `n = 2`), and the re-render's effects show that entry's years and issue one fade-in; circle plus container is unchanged for every dot |
| Timeline.Ring.PressNext | src/Timeline.tsx:177-185 | the next button does nothing at the last dot (year texts and fades untouched); otherwise it moves to the next dot, turning the ring one step back, and the re-render's effects show that entry's years and issue one fade-in; circle plus container is unchanged for every dot |
| Timeline.Ring.Click | src/Timeline.tsx:150-202 | a click on a ring dot or on a mobile nav dot selects it (ring turned by `Turn`); when the active dot changed, the effects re-run: the year texts show the new entry's years, the previous fade is killed and one fade-in is issued and left pending; a click on the active dot leaves texts and fades untouched |
| Timeline.Ring.Mount | src/Timeline.tsx:34-129 | the layout effect pre-rotates the dots and seeds the year texts, then the first effects run issues no fade and sets `renderCount` to 1 |
| Timeline.Ring.Unmount | src/Timeline.tsx:61-128 | the layout cleanup then the list-fade cleanup: every container again cancels the circle's rotation and no fade is left pending |
| Timeline.Ring.KillListFade | src/Timeline.tsx:126-128 | the effect cleanup kills the pending fade-in, if there is one |
| Timeline.Ring.OnActiveChanged | src/Timeline.tsx:72-129 | a year counter is tweened exactly when its span shows another number, and ends on the target year; the first run only sets `renderCount` to 1 with no fade, every later run kills the previous fade and issues one fade-in; at most one fade is ever pending |
| Lifecycle.Resolve | src/Timeline.tsx:150-185 | the dot an input asks for is in range; a prev (next) press asks for the active dot itself exactly at the first (last) dot, where the button is disabled |
| Lifecycle.Targets | src/Timeline.tsx:150-308 | a run of inputs selects one dot per input, each in range |
| Lifecycle.ClicksAreTargets | src/Timeline.tsx:150-158 | for dot clicks alone, the dots selected are exactly the dots clicked |
| Lifecycle.Apply | src/Timeline.tsx:150-308 | one input turns the ring by `Turn` to the dot it asks for; when the active dot changed, the year spans show its entry and one fade-in is issued and left pending; otherwise the spans and the pending fade are untouched |
| Lifecycle.Run | src/Timeline.tsx:72-308 | a run of inputs leaves the ring where `Replay` of the selected dots puts it, with one fade-in per input that changed the active dot; the year spans keep showing the active entry's years, and a fade is pending afterwards exactly when one was before or any input issued one |
| Lifecycle.Session | src/Timeline.tsx:16-129 | over mount, any dot clicks and button presses, and unmount: the last selected dot is active at the reference axis, the list fades in once per input that changed the selection and never on the first render, the year spans show the active entry's years, and after unmount every container cancels the circle's rotation |

## Left out

- JSX markup, CSS classes, `ArrowIcon`, the `0{activeIndex+1}/0{n}` readout and the static `rotate(i * degBetween)` placement of each line (used only as the "dot `i` sits at `i` steps" reading of `Ring.Aligned` and `Ring.Upright`): presentation only.
- The instant reveal of the active category label at mount (src/Timeline.tsx:55-59, a zero-duration tween): presentation only.
- The category label cross-fade on selection (src/Timeline.tsx:109-124): its final visibility depends on asynchronous tween timing, not on sequential state.
- The `xPercent`/`yPercent` centring tween and the fade's `yPercent` offset: layout only.
- Swiper (`slideTo(0, 0)`, navigation binding): an external widget whose code is not part of this model.
- GSAP timing, easing and frame-by-frame interpolation: tweens are modelled by the value they end on. The ring's relative `+=`/`-=` tweens (0.6 s) read their start value only when they start, so a selection made while the previous rotation is still running starts from a mid-way value and the ring can end off the axis; `Planner.ReplayAligned`, `Lifecycle.Run` and `Lifecycle.Session` take every rotation to have finished before the next input.
- Timeline.Ring.OnActiveChanged: the year spans are taken to show the previous tween's final year; a counter still mid-tween (showing an intermediate number) when the next selection arrives is not modelled.
- Timeline.Ring.constructor: requires at least one entry; with an empty `data` the source throws when it reads `data[activeIndex]` (src/Timeline.tsx:52, 210).
- Timeline.Ring.SetActiveDot: requires the index in `[0, n)`, since the source throws on any other (`Planner.PlanSelection` models that case as `Missing`).
- Geometry.GetDotsDegrees: requires `0 <= a <= n`; JavaScript `slice` with a negative or larger start (never passed: `activeIndex` stays in range) is not modelled.
- Floating-point rounding of `360 / n`: angles are exact multiples of a step.
- DOM lookups, React hook scheduling and StrictMode's double invocation of effects: effects are modelled as plain method calls in the order React runs them.
- `src/index.tsx`: application bootstrap with no logic.
