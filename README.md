# Breadcrumb trail and draggable modal, modelled in Dafny

This project models the two pieces of logic in the Storybook demo components
`CustomBreadcrumb` and `CustomModal`, and proves properties of them.

- `breadcrumb.dfy`, module `Breadcrumb`, is pure. The current pathname is split
  on `/` with JavaScript `split` semantics. Empty pieces are dropped, as
  `filter((x) => x)` does. The trail starts with a "Home" link to `/`. Segment
  `i` links to `"/" + segments[0..i].join("/")` and is flagged `isLast` when it
  is the final segment. The final segment is rendered as the passive active
  item, not as a link. `Split`, `Join` and `NonEmpty` model `split`, `join` and
  `filter`. `Segments`, `FullPath`, `Decompose`, `Keys` and `Trail` model the
  segment list, the link target, the entries, the React keys and the rendered
  items. `decodeURIComponent` is the function parameter `decode`, so nothing is
  assumed about it.
- `modal.dfy`, module `Modal`, is imperative. The class `ModalState` holds:
  - the `position` state (`x`, `y`);
  - the `isLoading` state;
  - the `isDragging` and `offset` refs (`offsetX`, `offsetY`);
  - `pendingTimers`, the loading timers scheduled but not yet fired.

  There is one method per event: `MouseDown`, `MouseMove`, `MouseUp`,
  `OpenEffect` (the effect on `isOpen`), `LoadDone` (a loading timer fires) and
  `KeyDown` (the Escape handler). `Render` decides what is shown: nothing, the
  skeleton or the children, and the supplied or default footer. `Clamp` is
  `Math.max(0, Math.min(v, hi))`. A few client methods at the end chain events
  together. They cover the Escape key names, a grab and hold, a full drag
  gesture over any number of moves, a drag that survives a close and reopen,
  a move after release, a double release and a stale timer.

Positions and pointer coordinates are JavaScript numbers. They are modelled as
exact `real`s, so the recentring `innerWidth / 2 - 150` is exact. The viewport
sizes (`innerWidth`, `innerHeight`) and container sizes (`clientWidth`,
`clientHeight`) are integer DOM properties, modelled as `nat`.

Behaviour of the code that the model keeps as written:

- The loading timer is never cancelled. After a close and a reopen, a timer
  firing ends the loading while another timer is still pending
  (`StaleTimerAfterReopen`). Timers all wait 2000 ms, so the one that fires
  first is the earlier opening's.
- The move handler dereferences the measured container while dragging. It does
  not ignore the event. So `MouseMove` requires a measured container whenever
  `isDragging` holds.
- "Home" is always rendered as a link, even at the root path. No entry is
  active there.
- A malformed percent-encoding makes `decodeURIComponent` throw. No fail-closed
  decode is modelled.
- The Escape listener stays registered whenever the component is mounted,
  whether the dialog is open or not.
- Closing does not end a drag. The mouse-up listener is detached while the
  dialog is closed, and the open effect never resets the drag ref. A dialog
  closed with Escape in the middle of a drag therefore reopens still dragging,
  and follows the pointer with no button held (`DragSurvivesReopen`).

## Model

| member | source | states |
|---|---|---|
| Breadcrumb.Split | my-story/src/components/anchors/Breadcrumb/CustomBreadcrumb.jsx:51 | `split("/")` yields one more piece than there are separators, and no piece contains `/` |
| Breadcrumb.NonEmpty | my-story/src/components/anchors/Breadcrumb/CustomBreadcrumb.jsx:51 | `filter((x) => x)` keeps only non-empty strings, each drawn from the input, and is the identity when no string is empty |
| Breadcrumb.Segments | my-story/src/components/anchors/Breadcrumb/CustomBreadcrumb.jsx:51 | no segment is empty and no segment contains `/`; there are at most separators + 1 of them |
| Breadcrumb.Join | my-story/src/components/anchors/Breadcrumb/CustomBreadcrumb.jsx:58 | a non-empty `join("/")` starts with its first piece (its inverse is stated by JoinSplit and SplitJoin) |
| Breadcrumb.JoinCount | my-story/src/components/anchors/Breadcrumb/CustomBreadcrumb.jsx:58 | joining `n` `/`-free pieces puts exactly `n - 1` separators in the result |
| Breadcrumb.FullPath | my-story/src/components/anchors/Breadcrumb/CustomBreadcrumb.jsx:58 | each target is `/` followed by a string that starts with the first segment (its steps and inverse are stated by FullPathStep and FullPathRoundTrip) |
| Breadcrumb.Decompose | my-story/src/components/anchors/Breadcrumb/CustomBreadcrumb.jsx:57-67 | one entry per segment; entry `i` is labelled `decode(seg[i])` and targets `FullPath(segs, i)`, the `"/" + segs.slice(0, i + 1).join("/")` of line 58; only the final entry is terminal; each target is a strict prefix of every later one |
| Breadcrumb.Keys | my-story/src/components/anchors/Breadcrumb/CustomBreadcrumb.jsx:58-62 | one key per segment; key `i` is `FullPath(segs, i)` and decomposes back into `segs[..i + 1]` |
| Breadcrumb.Trail | my-story/src/components/anchors/Breadcrumb/CustomBreadcrumb.jsx:55-67 | 1 + (segment count) items, the first the Home link to `/`; after it, an item is passive exactly when it is the last |
| Breadcrumb.SplitWithoutSep | my-story/src/components/anchors/Breadcrumb/CustomBreadcrumb.jsx:51 | a string without `/` splits into itself alone |
| Breadcrumb.SplitConcat | my-story/src/components/anchors/Breadcrumb/CustomBreadcrumb.jsx:51 | splitting `a + "/" + b` gives the pieces of `a` followed by the pieces of `b` |
| Breadcrumb.JoinSplit | my-story/src/components/anchors/Breadcrumb/CustomBreadcrumb.jsx:51-58 | joining the pieces of a split with `/` gives back the original string |
| Breadcrumb.SplitJoin | my-story/src/components/anchors/Breadcrumb/CustomBreadcrumb.jsx:51-58 | splitting a join of a non-empty list of `/`-free pieces gives back the list |
| Breadcrumb.JoinSnoc | my-story/src/components/anchors/Breadcrumb/CustomBreadcrumb.jsx:58 | appending a piece to a non-empty list adds `/` and that piece to its join |
| Breadcrumb.NonEmptyConcat | my-story/src/components/anchors/Breadcrumb/CustomBreadcrumb.jsx:51 | filtering distributes over concatenation |
| Breadcrumb.SegmentsConcat | my-story/src/components/anchors/Breadcrumb/CustomBreadcrumb.jsx:51 | the segments of `a + "/" + b` are those of `a` followed by those of `b` |
| Breadcrumb.LeadingSlashIgnored | my-story/src/components/anchors/Breadcrumb/CustomBreadcrumb.jsx:51 | a leading `/` does not change the segments |
| Breadcrumb.TrailingSlashIgnored | my-story/src/components/anchors/Breadcrumb/CustomBreadcrumb.jsx:51 | a trailing `/` does not change the segments |
| Breadcrumb.DoubledSlashIgnored | my-story/src/components/anchors/Breadcrumb/CustomBreadcrumb.jsx:51 | `//` anywhere decomposes like a single `/` |
| Breadcrumb.DoubledSlashesExample | my-story/src/components/anchors/Breadcrumb/CustomBreadcrumb.jsx:51 | `"/a//b/"` and `"/a/b"` both decompose into `["a", "b"]` |
| Breadcrumb.FullPathStep | my-story/src/components/anchors/Breadcrumb/CustomBreadcrumb.jsx:58 | with at least one segment, target 0 is `"/" + seg[0]`; when `i+1` is a segment index, target `i+1` is target `i` + `"/"` + `seg[i+1]` |
| Breadcrumb.FullPathStrictPrefix | my-story/src/components/anchors/Breadcrumb/CustomBreadcrumb.jsx:58 | each target is a strict prefix of every later target |
| Breadcrumb.FullPathsIncreasing | my-story/src/components/anchors/Breadcrumb/CustomBreadcrumb.jsx:58 | for all `i < j`, target `i` is a strict prefix of target `j` |
| Breadcrumb.FullPathsDistinct | my-story/src/components/anchors/Breadcrumb/CustomBreadcrumb.jsx:58 | the targets of different segments differ |
| Breadcrumb.KeysAreTargets | my-story/src/components/anchors/Breadcrumb/CustomBreadcrumb.jsx:57-62 | the `key` of fragment `i` is the `fullPath` of entry `i`, for any decoding |
| Breadcrumb.KeysUnique | my-story/src/components/anchors/Breadcrumb/CustomBreadcrumb.jsx:58-62 | the React keys of the fragments are pairwise distinct |
| Breadcrumb.FullPathRoundTrip | my-story/src/components/anchors/Breadcrumb/CustomBreadcrumb.jsx:51-58 | decomposing target `i` of well-formed segments gives exactly `segs[..i + 1]` |
| Breadcrumb.FullPathsRoundTrip | my-story/src/components/anchors/Breadcrumb/CustomBreadcrumb.jsx:51-58 | for well-formed segments, every target `i` decomposes into `segs[..i + 1]` |
| Breadcrumb.LastFullPathRoundTrip | my-story/src/components/anchors/Breadcrumb/CustomBreadcrumb.jsx:51-58 | the last target of a path decomposes back into that path's segments |
| Breadcrumb.DecomposeRoundTrip | my-story/src/components/anchors/Breadcrumb/CustomBreadcrumb.jsx:51-67 | following entry `i`'s link gives `i+1` entries that agree with the first `i+1` in label and target; entry `i` is now terminal |
| Breadcrumb.TrailShape | my-story/src/components/anchors/Breadcrumb/CustomBreadcrumb.jsx:55-67 | the trail has 1 + (segment count) items; the first is the Home link to `/`; item `i+1` is passive exactly when `i` is the last segment; otherwise it links to target `i`; its label is `decode(seg[i])` |
| Breadcrumb.ExactlyOneLast | my-story/src/components/anchors/Breadcrumb/CustomBreadcrumb.jsx:59 | with segments present, the final entry is terminal and no other entry is |
| Breadcrumb.RootSegments | my-story/src/components/anchors/Breadcrumb/CustomBreadcrumb.jsx:51 | a path made only of `/` (or empty) has no segments |
| Breadcrumb.RootTrail | my-story/src/components/anchors/Breadcrumb/CustomBreadcrumb.jsx:51-57 | at the root the trail is only the Home link; nothing is active |
| Breadcrumb.ThreeSegmentsExample | my-story/src/components/anchors/Breadcrumb/CustomBreadcrumb.jsx:51 | `"/a/b/c"` decomposes into `["a", "b", "c"]` |
| Breadcrumb.ThreeSegmentTrailExample | my-story/src/components/anchors/Breadcrumb/CustomBreadcrumb.jsx:51-67 | `"/a/b/c"` renders Home→`/`, a→`/a`, b→`/a/b`, then `c` as the passive item |
| Modal.Clamp | my-story/src/components/feedback/modal/CustomModal.jsx:120-121 | the result is never negative; it is at most `hi` when `hi >= 0`; it is `v` when `v` is in `[0, hi]`; it is `hi` above that; it is 0 when `v < 0` or `hi < 0` (the lower bound wins) |
| Modal.Min | my-story/src/components/feedback/modal/CustomModal.jsx:120-121 | `Math.min`: the result is one of the two arguments and no larger than either |
| Modal.Max | my-story/src/components/feedback/modal/CustomModal.jsx:120-121 | `Math.max`: the result is one of the two arguments and no smaller than either |
| Modal.ModalState.constructor | my-story/src/components/feedback/modal/CustomModal.jsx:89-92 | initial state: position (0, 0), loading, not dragging, offset (0, 0), no timer pending |
| Modal.ModalState.MouseDown | my-story/src/components/feedback/modal/CustomModal.jsx:104-110 | dragging starts; offset = pointer − position; position, loading and timers are unchanged |
| Modal.ModalState.MouseMove | my-story/src/components/feedback/modal/CustomModal.jsx:112-128 | when not dragging, nothing changes; when dragging: each axis is the clamp of pointer − offset to viewport − container; `x, y >= 0`; `x <= W − w` when `W − w >= 0`, likewise for y; an in-bounds candidate is taken exactly; drag flag, offset, loading and timers are unchanged |
| Modal.ModalState.MouseUp | my-story/src/components/feedback/modal/CustomModal.jsx:130-132 | dragging stops; nothing else changes |
| Modal.ModalState.OpenEffect | my-story/src/components/feedback/modal/CustomModal.jsx:134-148 | when `isOpen`: loading is set, one more timer is pending, and `2·(x+150) == innerWidth`, `2·(y+150) == innerHeight`; when not open, nothing changes; drag state is never touched |
| Modal.ModalState.LoadDone | my-story/src/components/feedback/modal/CustomModal.jsx:138-140 | a pending timer fires: loading ends and one fewer timer is pending; position and drag state are unchanged |
| Modal.ModalState.KeyDown | my-story/src/components/feedback/modal/CustomModal.jsx:96-99 | a close is requested exactly when the key is `"Escape"` |
| Modal.ModalState.Render | my-story/src/components/feedback/modal/CustomModal.jsx:165-193 | nothing is rendered exactly when closed; an open dialog sits at the current position; its body is the skeleton exactly while loading; a supplied footer is shown as is; with no footer, two buttons are shown and both request close |
| Modal.EscapeKeyNames | my-story/src/components/feedback/modal/CustomModal.jsx:96-99 | the handler requests close for `"Escape"` and not for `"Esc"` or `"escape"` |
| Modal.GrabAndHold | my-story/src/components/feedback/modal/CustomModal.jsx:104-126 | a grab followed by a move to the same pointer keeps an in-bounds dialog exactly where it was |
| Modal.DragGesture | my-story/src/components/feedback/modal/CustomModal.jsx:104-132 | with a container that fits the viewport, a grab, any number of moves and a release: after the first move every position is in bounds, whatever the pointer did; with no move the dialog stays put; it ends idle, with loading and timers untouched |
| Modal.DragSurvivesReopen | my-story/src/components/feedback/modal/CustomModal.jsx:104-163 | grab, Escape, close and reopen leave the drag ref set, so the next move places the dialog at the clamped pointer − offset with no button held |
| Modal.MoveAfterRelease | my-story/src/components/feedback/modal/CustomModal.jsx:112-132 | after a release, a move changes neither position nor offset, even with an unmeasured container |
| Modal.ReleaseTwice | my-story/src/components/feedback/modal/CustomModal.jsx:130-132 | releasing twice ends in the same state as releasing once |
| Modal.StaleTimerAfterReopen | my-story/src/components/feedback/modal/CustomModal.jsx:134-148 | timers are never cancelled: after open, close and reopen, one timer firing ends the reopened dialog's loading while one timer is still pending; that the firing one is the first opening's follows from the equal 2000 ms delays at lines 138-140 |

## Left out

- Styling and JSX layout (the `styled-components` templates, separators, the title, the × close button and the backdrop click with `stopPropagation`): presentation. Only which content is shown is modelled.
- `Breadcrumb.jsx`, the react-router wiring (`useLocation`, `Link`, `Routes`): the pathname is an input parameter of the model.
- `Modal.jsx`: demo wiring around one boolean that becomes the `isOpen` argument.
- `decodeURIComponent`: a library call, modelled as an arbitrary function parameter. Its exception on malformed input is not modelled.
- `addEventListener` and `removeEventListener` for `keydown`, `mousemove` and `mouseup`, and React's effect scheduling and re-rendering: event plumbing. The events arrive as method calls.
- `setTimeout` and its 2000 ms delay: timing. A timer firing is the `LoadDone` event, which may happen only while a timer is pending.
- The unmeasured container: the code would throw there, so `MouseMove` requires a measured container while dragging.
- `console.log` of the container ref: output only.
- Floating-point rounding: coordinates are exact reals, so `pointer − (pointer − position) == position` holds exactly in the model.
- Falsy footers: a falsy non-null `footer` (`false`, `0`, `""`) is modelled like an absent one (`None`), which is how `footer || …` treats it.
