/** The multi-column tree view that shows the events of a trace: a root item
    whose children are the trace's events, newest first, one row each. */
module EventTreeView {
  import opened InputEvents

  /** Column ids, in header order; `ColumnCount` is one past the last. */
  const IdColumn := 0
  const TypeColumn := 1
  const DeviceColumn := 2
  const SizeColumn := 3
  const TimeColumn := 4
  const ColumnCount := 5

  /** What an item shows as its display name. */
  datatype Label = NoLabel | Text(text: string) | EventIdLabel(eventId: int)

  /** A tree item: its row id, its depth and its children in display order. */
  datatype TreeViewItem = TreeViewItem(id: int, depth: int, displayName: Label, children: seq<TreeViewItem>)

  /** What one cell of a row shows: a field of the row's event, or nothing. */
  datatype Cell =
    | EmptyCell
    | IdCell(id: int)
    | TypeCell(eventType: EventType)
    | DeviceCell(deviceId: int)
    | SizeCell(sizeInBytes: nat)
    | TimeCell(time: real)

  /** The control hierarchy the view was opened for; passed through unchanged. */
  class InputControl { }

  /** The outcome of a double-click: nothing, or a request to open a state
      inspector on an event in the context of the root control. */
  datatype Activation = Ignored | Inspect(event: InputEvent, rootControl: InputControl)

  /** The externally owned trace; the view only copies its contents. */
  class InputEventTrace {
    var events: seq<InputEvent>

    method ToArray() returns (a: array<InputEvent>)
      ensures fresh(a) && a[..] == events
    {
      a := new InputEvent[|events|](i reads this requires 0 <= i < |events| => events[i]);
    }
  }

  /** The item that stands for nothing when the trace is empty: id 1, no name. */
  const Placeholder := TreeViewItem(1, 0, NoLabel, [])

  /** The row for the event at position `index` of the sorted snapshot. */
  function EventItem(index: nat, e: InputEvent): TreeViewItem
  {
    TreeViewItem(index + 1, 1, EventIdLabel(e.id), [])
  }

  /** The rows for a whole snapshot, in snapshot order. */
  function EventItems(events: seq<InputEvent>): seq<TreeViewItem>
  {
    seq(|events|, i requires 0 <= i < |events| => EventItem(i, events[i]))
  }

  /** The tree expected for a sorted snapshot: the root, and under it either
      one row per event or, for no events, the placeholder alone. */
  function RootFor(events: seq<InputEvent>): TreeViewItem
  {
    TreeViewItem(0, -1, Text("Root"), if |events| == 0 then [Placeholder] else EventItems(events))
  }

  /** The ids of a list of items. */
  function ItemIds(items: seq<TreeViewItem>): set<int>
  {
    set c | c in items :: c.id
  }

  /** Row ids are exactly 1..N for N events, each row at depth 1 and in
      snapshot order; an empty snapshot gets the placeholder alone. */
  lemma RowIdsAreContiguous(events: seq<InputEvent>)
    ensures RootFor(events).id == 0 && RootFor(events).depth == -1
    ensures |events| == 0 ==> RootFor(events).children == [Placeholder]
    ensures |events| > 0 ==> |RootFor(events).children| == |events|
    ensures |events| > 0 ==>
              forall i :: 0 <= i < |events| ==>
                RootFor(events).children[i].id == i + 1 && RootFor(events).children[i].depth == 1
    ensures |events| > 0 ==>
              forall id :: id in ItemIds(RootFor(events).children) <==> 1 <= id <= |events|
  {
    if |events| > 0 {
      var children := RootFor(events).children;
      forall k | 1 <= k <= |events|
        ensures k in ItemIds(children)
      {
        assert children[k - 1] in children;
      }
    }
  }

  /** The event a row id stands for: row `id` is slot `id - 1`. */
  function EventForItemId(events: seq<InputEvent>, id: int): (e: InputEvent)
    requires 1 <= id <= |events|
    ensures e in events
  {
    var eventIndex := id - 1;
    events[eventIndex]
  }

  /** Looking up the id of the row built for slot `i` gives back the event in
      slot `i`, whose own id is the row's display name. */
  lemma RowLookupRoundTrip(events: seq<InputEvent>, i: int)
    requires 0 <= i < |events|
    ensures RowIsRenderable(|events|, RootFor(events).children[i].id)
    ensures EventForItemId(events, RootFor(events).children[i].id) == events[i]
    ensures RootFor(events).children[i].displayName == EventIdLabel(events[i].id)
  {
  }

  /** The guard of the row renderer: a row is drawn only if its id names a
      slot of a non-empty snapshot. */
  function RowIsRenderable(eventCount: int, itemId: int): (r: bool)
    ensures r <==> 1 <= itemId <= eventCount
  {
    !(eventCount == 0 || itemId <= 0 || itemId > eventCount)
  }

  /** The placeholder of an empty snapshot is never drawn. */
  lemma PlaceholderIsNotRendered(events: seq<InputEvent>)
    requires |events| == 0
    ensures forall c :: c in RootFor(events).children ==> !RowIsRenderable(|events|, c.id)
  {
  }

  /** The column a cell belongs to (-1 for the empty cell). */
  function ColumnOf(cell: Cell): int
  {
    match cell
    case EmptyCell => -1
    case IdCell(_) => IdColumn
    case TypeCell(_) => TypeColumn
    case DeviceCell(_) => DeviceColumn
    case SizeCell(_) => SizeColumn
    case TimeCell(_) => TimeColumn
  }

  /** The cell shows the matching field of `e`, if any. */
  predicate ShowsFieldOf(cell: Cell, e: InputEvent)
  {
    match cell
    case EmptyCell => true
    case IdCell(v) => v == e.id
    case TypeCell(v) => v == e.eventType
    case DeviceCell(v) => v == e.deviceId
    case SizeCell(v) => v == e.sizeInBytes
    case TimeCell(v) => v == e.time
  }

  /** The cell drawn for event `e` in column `column`: each of the five
      columns shows its own field, any other index shows nothing. */
  function ColumnCell(e: InputEvent, column: int): (cell: Cell)
    ensures cell.EmptyCell? <==> !(0 <= column < ColumnCount)
    ensures !cell.EmptyCell? ==> ColumnOf(cell) == column
    ensures ShowsFieldOf(cell, e)
  {
    if column == IdColumn then IdCell(e.id)
    else if column == TypeColumn then TypeCell(e.eventType)
    else if column == DeviceColumn then DeviceCell(e.deviceId)
    else if column == SizeColumn then SizeCell(e.sizeInBytes)
    else if column == TimeColumn then TimeCell(e.time)
    else EmptyCell
  }

  /** Only full-state and delta-state events can be inspected. */
  predicate IsInspectable(t: EventType)
  {
    t == StateEvent || t == DeltaStateEvent
  }

  /** A three-event trace with distinct times, oldest capture first. */
  const SampleTrace := [
    InputEvent(1, StateEvent, 0, 32, 0.5),
    InputEvent(2, DeltaStateEvent, 0, 16, 1.2),
    InputEvent(3, OtherEvent(0), 0, 8, 0.8)
  ]

  /** With distinct times the sorted snapshot of the sample is fixed: row 1
      is event 2 (a delta, inspectable), row 2 is event 3 (not inspectable)
      and row 3 is event 1. */
  lemma SampleTraceRows(snapshot: seq<InputEvent>)
    requires multiset(snapshot) == multiset(SampleTrace) && NewestFirst(snapshot)
    ensures snapshot == [SampleTrace[1], SampleTrace[2], SampleTrace[0]]
    ensures IsInspectable(EventForItemId(snapshot, 1).eventType)
    ensures !IsInspectable(EventForItemId(snapshot, 2).eventType)
  {
    var expected := [SampleTrace[1], SampleTrace[2], SampleTrace[0]];
    assert multiset(expected) == multiset(SampleTrace);
    NewestFirstTimesUnique(snapshot, expected);
    forall i | 0 <= i < 3
      ensures snapshot[i] == expected[i]
    {
      assert snapshot[i] in multiset(SampleTrace);
    }
  }

  /** Every row the view shows has an id that `DoubleClickedItem` accepts:
      on a non-empty snapshot the ids of the root's children lie in `1..N`. */
  lemma RowsMeetDoubleClickRequires(v: InputEventTreeView, c: TreeViewItem)
    requires v.Valid() && c in v.rootItem.children
    ensures v.events.Length > 0 ==> 1 <= c.id <= v.events.Length
  {
    RowIdsAreContiguous(v.events[..]);
    if v.events.Length > 0 {
      assert c.id in ItemIds(v.rootItem.children);
    }
  }

  class InputEventTreeView {
    /** The sorted snapshot of the trace taken by the last reload. */
    var events: array<InputEvent>
    const eventTrace: InputEventTrace
    const rootControl: InputControl
    /** The tree the last reload built. */
    var rootItem: TreeViewItem

    /** After every reload the snapshot is newest first and the tree matches it. */
    ghost predicate Valid()
      reads this, events
    {
      NewestFirst(events[..]) && rootItem == RootFor(events[..])
    }

    constructor (eventTrace: InputEventTrace, rootControl: InputControl)
      ensures this.eventTrace == eventTrace && this.rootControl == rootControl
      ensures Valid() && fresh(events)
      ensures multiset(events[..]) == multiset(eventTrace.events)
      ensures unchanged(eventTrace)
    {
      this.eventTrace := eventTrace;
      this.rootControl := rootControl;
      events := new InputEvent[0];
      rootItem := RootFor([]);
      new;
      Reload();
    }

    /** Rebuilds the tree from a fresh snapshot of the trace. */
    method Reload()
      modifies this`events, this`rootItem
      ensures Valid() && fresh(events)
      ensures multiset(events[..]) == multiset(eventTrace.events)
      ensures unchanged(eventTrace)
    {
      rootItem := BuildRoot();
    }

    /** Copies the trace, sorts the copy newest first and builds one row per
        event under the root, or the placeholder when there are none. */
    method BuildRoot() returns (root: TreeViewItem)
      modifies this`events
      ensures fresh(events)
      ensures unchanged(eventTrace)
      ensures multiset(events[..]) == multiset(eventTrace.events)
      ensures NewestFirst(events[..])
      ensures root == RootFor(events[..])
    {
      root := TreeViewItem(0, -1, Text("Root"), []);

      events := eventTrace.ToArray();
      SortNewestFirst(events);

      if events.Length == 0 {
        root := root.(children := root.children + [Placeholder]);
      }

      for i := 0 to events.Length
        invariant root.id == 0 && root.depth == -1 && root.displayName == Text("Root")
        invariant root.children == if events.Length == 0 then [Placeholder] else EventItems(events[..])[..i]
      {
        var item := EventItem(i, events[i]);
        root := root.(children := root.children + [item]);
      }
      assert EventItems(events[..])[..events.Length] == EventItems(events[..]);
    }

    /** A double-click on row `id`: nothing on an empty snapshot; otherwise an
        inspection request for the row's event, but only if it carries state. */
    method DoubleClickedItem(id: int) returns (r: Activation)
      requires events.Length > 0 ==> 1 <= id <= events.Length
      ensures events.Length == 0 ==> r == Ignored
      ensures r.Inspect? <==> events.Length > 0 && IsInspectable(events[id - 1].eventType)
      ensures r.Inspect? ==> r.event == events[id - 1] && r.rootControl == rootControl
    {
      if events.Length == 0 {
        return Ignored;
      }

      var e := EventForItemId(events[..], id);

      if e.eventType != StateEvent && e.eventType != DeltaStateEvent {
        return Ignored;
      }

      r := Inspect(e, rootControl);
    }

    /** The cells drawn for row `itemId`, one per visible column in order;
        none at all unless the id names a slot of the snapshot. */
    method RowGUI(itemId: int, visibleColumns: seq<int>) returns (cells: seq<Cell>)
      ensures !RowIsRenderable(events.Length, itemId) ==> cells == []
      ensures RowIsRenderable(events.Length, itemId) ==>
                |cells| == |visibleColumns| &&
                forall k :: 0 <= k < |cells| ==> cells[k] == ColumnCell(events[itemId - 1], visibleColumns[k])
    {
      cells := [];
      if events.Length == 0 || itemId <= 0 || itemId > events.Length {
        return;
      }

      var e := EventForItemId(events[..], itemId);

      var columnCount := |visibleColumns|;
      for i := 0 to columnCount
        invariant |cells| == i
        invariant forall k :: 0 <= k < i ==> cells[k] == ColumnCell(e, visibleColumns[k])
      {
        cells := cells + [ColumnCell(e, visibleColumns[i])];
      }
    }
  }
}
