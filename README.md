# FLIP list animation — a Dafny model

This project models the core of a small list-animation library built on the
FLIP technique ("first, last, invert, play"). Its parts:

- **AnimateList.** When the children of a container change, it measures
  every child (`getPositions`). Where an earlier animation is still moving a
  child, it takes that animation's in-flight `translateY` out of the
  measured y, top and bottom (`getTransformsForNode`); the horizontal
  fields x, left and right keep the in-flight `translateX`. It then writes an inverting transform on every
  child that was already there (`moveBack`). Last, it starts one engine
  instance that takes all children back to a zero translation.
- **The animations store.** It keeps the running handles in three buckets
  (move, enter, leave). It prunes a handle when the handle's `finished`
  promise resolves. It answers whether anything is still active and which
  inner animations are active, and it forwards pause, play and seek to the
  handles.
- **The DOM helpers.** These are a membership search and array flattening.
- **The example driver `animate`.** It renders the translate targets as a
  CSS transform. A first timer applies the styles, and a second timer
  resolves `finished` and marks the handle completed.

Files and modules:

- `wrappers.dfy` (`Wrappers`) defines `Option`.
- `dom_helpers.dfy` (`DomHelpers`) covers `src/dom-helpers.js`.
- `animations_store.dfy` (`AnimationsStore`) covers `src/AnimationsStore.js`.
  The store is a class whose bucket fields are sequences. The methods
  reassign them, and `pending` lists the `finished` callbacks not yet run.
- `flip_engine.dfy` (`FlipEngine`) covers `src/index.js`. `AnimateList` is a
  class whose fields hold the position snapshots and the current engine
  instance.
- `text.dfy` (`Text`) renders an integer in a template literal the way
  JavaScript does, and reads it back.
- `animate_driver.dfy` (`AnimateDriver`) covers `examples/src/animate.js`.
  Its `Animation` class holds the handle's `completed` flag and the two
  pending timers.

Representation choices:

- DOM nodes are a type parameter compared by identity. A style map from
  node to `Style` stands for the nodes' inline styles.
- Handles are values, and their `id` stands for object identity (the store
  filters with `!==`). The engine setting `completed` on a handle is the
  explicit event `MarkCompleted`.
- A promise's `then` callbacks become entries of `pending`, and `OnFinished`
  runs them.
- `pause`, `play` and `seek` on the handles are returned as a trace of
  `Call`s, in call order.
- Arithmetic on a missing key of the transforms object yields NaN, modelled
  as `Num.NaN`.
- Coordinates are integers.

In these places the model follows the code as written, although another reading might be expected:

- `pause()` on the store reaches only the move and enter buckets.
- A child with no previous position is skipped by `moveBack`, not animated
  as an entrant.
- Zero offsets are written like any other.
- The horizontal offset is computed from a measurement that still includes
  the in-flight `translateX`, so an interrupted node lands `2·tx` away from
  where it was on screen. `InterruptedMoveOffset` states the resulting
  offset exactly.

## Model

| member | source | states |
|---|---|---|
| DomHelpers.Includes | src/dom-helpers.js:1-8 | true exactly when some index of the list holds the item; false on an empty list |
| DomHelpers.Concat | src/dom-helpers.js:10-15 | what flattening computes: the inner arrays appended one after another onto an initially empty accumulator (pinned down by ConcatAppend, ConcatFront, FlattenLength and FlattenMembership) |
| DomHelpers.Flatten | src/dom-helpers.js:10-15 | the result is the inner arrays concatenated in order |
| DomHelpers.ConcatAppend | src/dom-helpers.js:10-15 | flattening distributes over concatenation of the outer array |
| DomHelpers.ConcatFront | src/dom-helpers.js:10-15 | flattening a non-empty array is its first inner array followed by the flattening of the rest |
| DomHelpers.FlattenLength | src/dom-helpers.js:10-15 | the flattened length is the sum of the inner lengths |
| DomHelpers.FlattenMembership | src/dom-helpers.js:1-15 | an element occurs in the flattening exactly when some inner array includes it |
| Text.IntTextRoundTrip | examples/src/animate.js:5 | the decimal rendering of any integer reads back as that integer |
| Text.IntTextCharset | examples/src/animate.js:5 | a rendered integer holds only a sign and digits, never a blank |
| AnimationsStore.Store.constructor | src/AnimationsStore.js:4-10 | all three buckets start empty, with no callbacks registered |
| AnimationsStore.Store.AddAnimation | src/AnimationsStore.js:12-25 | an unknown bucket name or a completed handle changes nothing; otherwise the handle is appended to its bucket only, and a callback is registered exactly when the handle has a `finished` promise |
| AnimationsStore.Store.OnFinished | src/AnimationsStore.js:18-24 | each bucket that registered a callback for the handle loses every entry of that handle; other buckets are unchanged; those callbacks are consumed |
| AnimationsStore.Without | src/AnimationsStore.js:20-22 | the filtered bucket keeps exactly the entries of other handles and is no longer |
| AnimationsStore.WithoutAppend | src/AnimationsStore.js:20-22 | filtering distributes over concatenation, so handles pushed later are filtered too |
| AnimationsStore.WithoutAbsent | src/AnimationsStore.js:20-22 | filtering out a handle that is not in the bucket leaves it unchanged |
| AnimationsStore.WithoutTwice | src/AnimationsStore.js:18-24 | filtering the same handle twice is filtering it once |
| AnimationsStore.Store.MarkCompleted | src/AnimationsStore.js:33-45 | every stored entry of the handle becomes completed; nothing else changes |
| AnimationsStore.Store.RemoveAllAnimations | src/AnimationsStore.js:27-31 | move and enter become empty; leave and the registered callbacks are kept |
| AnimationsStore.AnyActive | src/AnimationsStore.js:41-45 | a bucket is active exactly when it holds a handle not yet completed |
| AnimationsStore.Store.HasActiveAnimations | src/AnimationsStore.js:41-45 | true exactly when some bucket holds a handle not yet completed |
| AnimationsStore.Store.ActiveAnimations | src/AnimationsStore.js:33-39 | getActiveAnimations: the buckets flattened in the order move, enter, leave, the completed handles dropped, and their inner-animation lists flattened (its order and membership are proved by ActiveAnimationsInBucketOrder and ActiveAnimationsMembership) |
| AnimationsStore.ActiveInnerAppend | src/AnimationsStore.js:33-39 | keeping the uncompleted handles' inner lists distributes over concatenation |
| AnimationsStore.ActiveInnerMembership | src/AnimationsStore.js:33-39 | an inner animation is listed exactly when an uncompleted handle of the bucket holds it |
| AnimationsStore.ActiveAnimationsInBucketOrder | src/AnimationsStore.js:33-39 | the active inner animations come bucket by bucket, in the order move, enter, leave |
| AnimationsStore.ActiveAnimationsMembership | src/AnimationsStore.js:33-39 | an inner animation is reported exactly when some uncompleted handle in some bucket holds it |
| AnimationsStore.ActiveAnimationsNeedActiveHandle | src/AnimationsStore.js:33-45 | a non-empty list of active animations implies the store has active animations |
| AnimationsStore.Broadcast | src/AnimationsStore.js:47-65 | one call per handle, in order, each carrying the request to that handle |
| AnimationsStore.BroadcastReaches | src/AnimationsStore.js:47-65 | a call is made exactly when its handle is in the groups and the request is the one broadcast |
| AnimationsStore.BroadcastTo | src/AnimationsStore.js:47-65 | the nested loops call the handles of the flattened groups in order |
| AnimationsStore.Store.Pause | src/AnimationsStore.js:47-51 | only the move and enter handles are paused, move first |
| AnimationsStore.Store.PlayAll | src/AnimationsStore.js:53-57 | every handle of every bucket is played, in the order move, enter, leave |
| AnimationsStore.Store.Seek | src/AnimationsStore.js:59-65 | every handle of every bucket is sought to the given value, in the order move, enter, leave |
| FlipEngine.TransformsForNode | src/index.js:10-21 | getTransformsForNode: the default translateX 0, translateY 0 when no transform animation targets the node, otherwise the property-to-value object built from the matching animations in order (characterised by TransformsForNodeSpec) |
| FlipEngine.TransformsForNodeSpec | src/index.js:10-21 | no matching transform animation gives translateX 0 and translateY 0; otherwise a property is present exactly when some matching animation sets it, and it holds the value of the last such animation |
| FlipEngine.CollectKeys | src/index.js:17-20 | the reduced object has a key exactly when some matching animation sets that property |
| FlipEngine.CollectValue | src/index.js:17-20 | the last matching animation for a property decides its value |
| FlipEngine.PositionOf | src/index.js:28-41 | the entry pushed for one child: its measured rectangle with the in-flight translateY subtracted from y, top and bottom (NaN when a matching animation sets no translateY), x, left, right, width and height as measured, and the node |
| FlipEngine.PositionsOf | src/index.js:23-43 | one position per child, in order, for that child |
| FlipEngine.GetPositions | src/index.js:23-43 | the loop returns the positions of the children in document order |
| FlipEngine.PositionsWithoutAnimations | src/index.js:28-38 | with no animations each child is recorded at its measured rectangle |
| FlipEngine.PositionUndoesVerticalTranslate | src/index.js:27-38 | an in-flight vertical translation is taken out of y, top and bottom while a horizontal one stays in; a matching animation without translateY turns y, top and bottom into NaN |
| FlipEngine.FindPosition | src/index.js:47 | none exactly when no entry has the node; otherwise an entry with that node |
| FlipEngine.OffsetFor | src/index.js:52-57 | the offset written for a node: previous left minus new left horizontally, and previous top minus new top plus the in-flight translateY of the previous node vertically (NaN when that is missing) |
| FlipEngine.WriteFor | src/index.js:47-57 | the write for one new position: none when no previous entry has its node, otherwise the offset from the first such entry |
| FlipEngine.MoveBackOffsets | src/index.js:46-58 | the writes of moveBack: the writes of the new positions, in their order |
| FlipEngine.MoveBack | src/index.js:45-59 | the style writes are the inverting offsets of the children found before, in the order of the new positions |
| FlipEngine.MoveBackWrites | src/index.js:45-59 | a write happens exactly for a new position whose node has a previous position, with the offset computed from the two |
| FlipEngine.MoveBackCount | src/index.js:46-51 | one write per child that has a previous position; none when every child is new |
| FlipEngine.MoveBackSteady | src/index.js:45-59 | measuring the same distinct children twice with no animation writes a zero offset on each of them |
| FlipEngine.InterruptedMoveOffset | src/index.js:45-57 | for a node displaced mid-flight, the vertical offset puts it back where it was on screen, but the horizontal one subtracts the in-flight translateX instead of adding it |
| FlipEngine.Nodes | src/index.js:95 | the targets are the nodes of the positions, index by index |
| FlipEngine.AnimateList.InFlight | src/index.js:73-74 | an instance exists and has not completed |
| FlipEngine.AnimateList.ActiveAnimations | src/index.js:75-77 | the running instance's inner animations while it is in flight, otherwise none |
| FlipEngine.AnimateList.constructor | src/index.js:62-68 | the first snapshot is taken with no animations, and no instance is running |
| FlipEngine.AnimateList.AnimateChange | src/index.js:70-98 | measures with the running instance's animations only while it is in flight; writes the inverting offsets against the current snapshot; pauses the old instance exactly when it was in flight; shifts the snapshots; starts one instance whose targets are the children in order |
| FlipEngine.AnimateList.Animate | src/index.js:116-123 | the stored instance is the one returned, and it takes the targets to zero translation; the snapshots are unchanged |
| FlipEngine.AnimateList.Pause | src/index.js:139-143 | with no instance nothing happens; otherwise the instance becomes paused |
| FlipEngine.AnimateList.EngineFrame | src/index.js:73-77 | a running, unpaused instance reports the new inner animations; in any other state nothing changes |
| FlipEngine.AnimateList.EngineComplete | src/index.js:73-77 | a running, unpaused instance becomes completed; in any other state nothing changes |
| AnimateDriver.GetTransformValue | examples/src/animate.js:1-9 | the translate keys of the target values, in key order, each rendered as key(value px), joined by single blanks (characterised by TransformPartsMembership, GetTransformValueEmpty and GetTransformValueParts) |
| AnimateDriver.TransformPartsAppend | examples/src/animate.js:1-9 | the rendered pieces of two key lists are those of each, concatenated |
| AnimateDriver.TransformPartsMembership | examples/src/animate.js:2-7 | a piece is rendered exactly for a translate key with its value; no other key is rendered |
| AnimateDriver.GetTransformValueEmpty | examples/src/animate.js:1-9 | the transform value is empty exactly when the target values have no translate key |
| AnimateDriver.GetTransformValueParts | examples/src/animate.js:1-9 | splitting the transform value on blanks gives back the rendered pieces, in key order |
| AnimateDriver.SplitJoin | examples/src/animate.js:8 | splitting undoes joining on non-empty pieces without blanks |
| AnimateDriver.Applied | examples/src/animate.js:26-34 | one target's style after the apply step: the given transition, the transform value when it is non-empty and the old transform otherwise, opacity "1" when an opacity is requested and the old opacity otherwise |
| AnimateDriver.AppliedTwice | examples/src/animate.js:25-35 | applying the styles twice is applying them once |
| AnimateDriver.ApplyStep | examples/src/animate.js:25-35 | every target gets the transition; its transform becomes the transform value only when that is non-empty; its opacity becomes 1 only when an opacity is requested; nodes that are not targets keep their style |
| AnimateDriver.Animation.constructor | examples/src/animate.js:11-22 | the handle starts not completed, with only the first timer pending |
| AnimateDriver.Animation.FireApplyTimer | examples/src/animate.js:24-37 | a pending first timer applies the styles to every target and schedules the second timer; otherwise nothing changes |
| AnimateDriver.Animation.FireResolveTimer | examples/src/animate.js:36-42 | the handle becomes completed exactly when the second timer was pending |
| AnimateDriver.Animation.Destroy | examples/src/animate.js:18-21 | both timers are cleared, so a handle destroyed before its timers fire never completes |
| AnimateDriver.Animation.Pause | examples/src/animate.js:17 | pausing changes nothing |

## Left out

- The `MutationObserver` wiring and the mutation records are left out. `AnimateChange` receives the container's children and their measured rectangles as parameters. The first record's target is taken to be the observed container.
- `getBoundingClientRect` is replaced by rectangles passed in, and `console.log` output is not modelled.
- `anime.js` is replaced by a record of the instance's targets, its inner animations and its completed and paused flags. The events `EngineFrame` and `EngineComplete` stand for the engine's own updates. Registering `anime` on `window` is left out.
- `drawPositions`, the `drawingOffset` field and the dead `if (false)` branch of `animateChange` are left out because they have no effect on the animation.
- `parseFloat` and fractional geometry are replaced by integer coordinates and integer animation values.
- `setTimeout`, `clearTimeout` and promises are replaced by explicit events. The driver's `duration` is stored but not used, because time is not modelled.
- AnimateDriver.Animation.FireResolveTimer: resolving the promise and running the `then` that sets `completed` are one event. There is no state in which the promise has resolved but `completed` is still false.
- AnimationsStore.Store.OnFinished: all callbacks a handle registered run as one event. The interleaving of callbacks of different handles with other store calls is modelled only at that grain.
- AnimationsStore.Store.AddAnimation: a name such as `constructor`, inherited by the plain object, passes the bucket check in JavaScript and then throws on `push`. The model treats every name other than the three bucket keys as unknown.
- AnimationsStore.Store.PlayAll: a handle without `play` or `seek` would throw. The model assumes every handle has `pause`, `play` and `seek`.
- Text.IntTextRoundTrip: integers are rendered as plain decimal digits. Exponent notation for very large values, `-0` and fractions are not modelled.
- AnimationsStore.Store.AddAnimation: handles are values, so callers must pass the current value of a handle. JavaScript reads the live object; if a stored copy of the same handle is already completed but the handle passed in is not, the model appends it where JavaScript would refuse it. Only `MarkCompleted` keeps every stored copy of a handle consistent. The proved properties hold in every state and are not affected.
- The enter and leave strategies, the snapshot taken before an update, the React demo components and the style-guide configuration are not part of this model.
