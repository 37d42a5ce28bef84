# Input event trace view, modelled in Dafny

This project models the event-trace tree view of the Unity Input System editor
(`InputEventTreeView`). The view shows a captured trace of input events as a
table.

- On every reload it copies the trace into a fresh array and sorts the copy
  newest first with a three-way comparison on the event time.
- It then builds a root item (id 0, depth -1) with one child row per event.
  Row `i + 1` stands for slot `i` of the sorted array. An empty trace gets a
  single placeholder row with id 1 instead.
- The row renderer draws a row only when its id names a slot of a non-empty
  snapshot. Each visible column shows one field of the event.
- A double-click asks for a state inspector, and only for full-state or
  delta-state events.

Two modules:

- `InputEvents` (`input_events.dfy`) holds the event record and the
  comparison. It also holds an insertion sort that stands in for the
  framework's array sort, and the lemma that any two newest-first orders of
  the same events agree on the time at every position.
- `EventTreeView` (`input_event_tree_view.dfy`) holds the tree items, the
  expected tree `RootFor`, the row-id lookup, the render guard and the
  column-to-cell choice. Its class `InputEventTreeView` carries the snapshot
  array and the tree built from it. The trace is a class whose contents the
  view only reads. The root control is an opaque object passed through to
  the inspection request.

Two notes on the code:

- `GetEventPtrFromItemId` indexes without a check, so the model states the
  range as a precondition. Only the row renderer checks bounds, and it draws
  nothing when they fail.
- The snapshot is sorted by non-increasing time. Events with equal times may
  end up in any order.

## Model

| member | source | states |
|---|---|---|
| `InputEvents.CompareByTimeDescending` | Assets/InputSystem/Editor/Internal/InputEventTreeView.cs:131-139 | the result is -1, 0 or 1; it is 0 exactly on equal times and negative exactly when the first event is newer |
| `InputEvents.ComparatorIsConsistent` | Assets/InputSystem/Editor/Internal/InputEventTreeView.cs:131-139 | the comparison is antisymmetric (`cmp(a,b) == -cmp(b,a)`), reflexive at 0 and transitive for "not after" |
| `InputEvents.NewestFirstMeansComparatorAgrees` | Assets/InputSystem/Editor/Internal/InputEventTreeView.cs:130-140 | a sequence is ordered by non-increasing time exactly when the comparison never puts a later element first |
| `InputEvents.SortNewestFirst` | Assets/InputSystem/Editor/Internal/InputEventTreeView.cs:130-140 | after the in-place sort the array is newest first and a permutation of what it held |
| `InputEvents.NewestFirstTimesUnique` | Assets/InputSystem/Editor/Internal/InputEventTreeView.cs:129-140 | two newest-first arrangements of the same events have the same length and the same time at every position, so only the order among ties is open |
| `EventTreeView.RowIdsAreContiguous` | Assets/InputSystem/Editor/Internal/InputEventTreeView.cs:121-161 | the root has id 0 and depth -1; N > 0 events give N children with ids `i + 1` at depth 1 in snapshot order, and the set of child ids is exactly `1..N`; no events give the placeholder alone |
| `EventTreeView.EventForItemId` | Assets/InputSystem/Editor/Internal/InputEventTreeView.cs:21-25 | for an id in `1..N` the lookup returns an event of the snapshot |
| `EventTreeView.RowLookupRoundTrip` | Assets/InputSystem/Editor/Internal/InputEventTreeView.cs:149-161 | the row built for slot `i` passes the render guard, its id looks up the event in slot `i`, and its display name is that event's id |
| `EventTreeView.RowIsRenderable` | Assets/InputSystem/Editor/Internal/InputEventTreeView.cs:169 | the render guard holds exactly when `1 <= id <= N`, so it fails on an empty snapshot |
| `EventTreeView.PlaceholderIsNotRendered` | Assets/InputSystem/Editor/Internal/InputEventTreeView.cs:142-147 | the placeholder row of an empty snapshot never passes the render guard |
| `EventTreeView.ColumnCell` | Assets/InputSystem/Editor/Internal/InputEventTreeView.cs:185-202 | columns 0 to 4 each give a cell of their own column holding the event's id, type, device id, size and time respectively; any other index gives an empty cell |
| `EventTreeView.SampleTraceRows` | Assets/InputSystem/Editor/Internal/InputEventTreeView.cs:129-161 | a three-event trace with times 0.5, 1.2 and 0.8 has only one newest-first snapshot; row 1 is the delta-state event and can be inspected, row 2 is the other event and cannot |
| `EventTreeView.RowsMeetDoubleClickRequires` | Assets/InputSystem/Editor/Internal/InputEventTreeView.cs:102-107 | in a view whose tree matches its snapshot, the id of every row of that tree meets the range `DoubleClickedItem` requires, so a double-click on a shown row never indexes out of bounds |
| `EventTreeView.InputEventTreeView.constructor` | Assets/InputSystem/Editor/Internal/InputEventTreeView.cs:94-100 | keeps the trace and root control and reloads, leaving a valid view over a fresh snapshot of the trace; the trace is unchanged |
| `EventTreeView.InputEventTreeView.Reload` | Assets/InputSystem/Editor/Internal/InputEventTreeView.cs:99 | replaces the snapshot with a fresh newest-first permutation of the trace and stores the tree built from it |
| `EventTreeView.InputEventTreeView.BuildRoot` | Assets/InputSystem/Editor/Internal/InputEventTreeView.cs:119-164 | the new snapshot is a fresh array, a permutation of the trace, newest first; the trace is unchanged; the returned root is `RootFor` of the snapshot |
| `EventTreeView.InputEventTreeView.DoubleClickedItem` | Assets/InputSystem/Editor/Internal/InputEventTreeView.cs:102-117 | ignored on an empty snapshot; otherwise an inspection request exactly when the row's event is a state or delta-state event, carrying that event and the root control |
| `EventTreeView.InputEventTreeView.RowGUI` | Assets/InputSystem/Editor/Internal/InputEventTreeView.cs:166-179 | no cells unless the render guard holds; otherwise one cell per visible column, in order, each the cell `ColumnCell` picks for the row's event |

## Left out

- `Assets/InputSystem.Tests/PerformanceTests.cs` is not part of this model. It is a wall-clock timing assertion around an input update that is not shown.
- Drawing is not modelled: labels, cell rectangles, centring and the `"0.0000s"` time format. `RowGUI` returns the cells it would draw instead.
- The header and column layout (`Create`, `CreateHeaderState`) is left out. It only passes widths and titles to the framework.
- Opening the inspector window is not modelled. `DoubleClickedItem` returns an `Inspect` request instead of creating and showing a window.
- `DoubleClickedItem` requires a row id in `1..N` when the snapshot is non-empty. The code has no bounds check there and would fail on an id outside `1..N`.
- Event times are modelled as `real`. Floating-point NaN, which the comparison would treat as equal to everything, is not modelled.
- The framework's array sort is replaced by an insertion sort with the same comparison. Only its contract, newest first and a permutation, is claimed. The framework's tie order is not modelled.
- The trace's own storage and its `ToArray` copy are modelled as a sequence field and a plain copy. Concurrent capture into the trace is not modelled.
- Event memory layout and type checks are modelled as a record with a type tag. Type codes other than state and delta-state are kept as an opaque number.
- Tree items do not record their parent. `AddChild` is modelled as appending to the root's child list.
- The placeholder row has depth 0 and no display name, which are the framework's defaults for an item built from an id alone.
