/** Input event records as the event-trace view sees them, the newest-first
    comparison it sorts with, and the sort itself. */
module InputEvents {

  /** The kind of an event. Only the two state-carrying kinds matter to the
      view; every other kind keeps its own type code. */
  datatype EventType = StateEvent | DeltaStateEvent | OtherEvent(code: int)

  /** One captured event: its sequence number, kind, originating device,
      payload size and capture timestamp in seconds. */
  datatype InputEvent = InputEvent(id: int, eventType: EventType, deviceId: int, sizeInBytes: nat, time: real)

  /** The comparison handed to the sort: negative when `a` is newer,
      positive when `b` is newer, zero when both carry the same time. */
  function CompareByTimeDescending(a: InputEvent, b: InputEvent): (r: int)
    ensures r == -1 || r == 0 || r == 1
    ensures r == 0 <==> a.time == b.time
    ensures r < 0 <==> b.time < a.time
  {
    var aTime := a.time;
    var bTime := b.time;
    if aTime > bTime then -1
    else if bTime > aTime then 1
    else 0
  }

  /** The comparison is a valid three-way comparison: swapping the
      arguments negates it, and "not after" is transitive. */
  lemma ComparatorIsConsistent(a: InputEvent, b: InputEvent, c: InputEvent)
    ensures CompareByTimeDescending(a, b) == -CompareByTimeDescending(b, a)
    ensures CompareByTimeDescending(a, a) == 0
    ensures CompareByTimeDescending(a, b) <= 0 && CompareByTimeDescending(b, c) <= 0
            ==> CompareByTimeDescending(a, c) <= 0
  {
  }

  /** Newest first: no event is preceded by an older one. */
  predicate NewestFirst(s: seq<InputEvent>)
  {
    forall i, j :: 0 <= i < j < |s| ==> s[i].time >= s[j].time
  }

  /** A sequence is newest first exactly when the comparison never puts a
      later element before an earlier one. */
  lemma NewestFirstMeansComparatorAgrees(s: seq<InputEvent>)
    ensures NewestFirst(s) <==>
            forall i, j :: 0 <= i < j < |s| ==> CompareByTimeDescending(s[i], s[j]) <= 0
  {
  }

  /** Sorts the array in place, newest first, using the comparison above;
      the order of events with equal times is left open. */
  method SortNewestFirst(a: array<InputEvent>)
    modifies a
    ensures NewestFirst(a[..])
    ensures multiset(a[..]) == old(multiset(a[..]))
  {
    var i := 0;
    while i < a.Length
      invariant 0 <= i <= a.Length
      invariant NewestFirst(a[..i])
      invariant multiset(a[..]) == old(multiset(a[..]))
    {
      InsertIntoPrefix(a, i);
      i := i + 1;
    }
    assert a[..] == a[..a.Length];
  }

  /** One insertion step: moves `a[i]` left past every older event, so the
      prefix up to and including `i` becomes newest first. */
  method InsertIntoPrefix(a: array<InputEvent>, i: int)
    requires 0 <= i < a.Length
    requires NewestFirst(a[..i])
    modifies a
    ensures NewestFirst(a[..i + 1])
    ensures multiset(a[..]) == old(multiset(a[..]))
  {
    var j := i;
    while j > 0 && CompareByTimeDescending(a[j - 1], a[j]) > 0
      invariant 0 <= j <= i
      invariant forall k, l :: 0 <= k < l <= i && k != j && l != j ==> a[k].time >= a[l].time
      invariant forall l :: j < l <= i ==> a[j].time >= a[l].time
      invariant multiset(a[..]) == old(multiset(a[..]))
    {
      a[j - 1], a[j] := a[j], a[j - 1];
      j := j - 1;
    }
  }

  /** Ties are the only freedom the sort has: any two newest-first
      arrangements of the same events agree on the time at every position. */
  lemma {:induction false} NewestFirstTimesUnique(s: seq<InputEvent>, t: seq<InputEvent>)
    requires NewestFirst(s) && NewestFirst(t)
    requires multiset(s) == multiset(t)
    ensures |s| == |t|
    ensures forall i :: 0 <= i < |s| ==> s[i].time == t[i].time
    decreases |s|
  {
    assert |s| == |multiset(s)| == |multiset(t)| == |t|;
    if |s| > 0 {
      var k := HeadsShareTime(s, t);
      var rest := RemoveAt(t, k);
      RemovingHeadTimeKeepsOrder(t, k);
      RemovingMatchedHeadKeepsMultiset(s, t, k);
      NewestFirstTimesUnique(s[1..], rest);
      forall i | 0 < i < |s|
        ensures s[i].time == t[i].time
      {
        assert s[i] == s[1..][i - 1];
      }
    }
  }

  /** The first events of two newest-first arrangements of the same events
      carry the same time, and the head of `s` sits at some position `k` of
      `t`. */
  lemma HeadsShareTime(s: seq<InputEvent>, t: seq<InputEvent>) returns (k: nat)
    requires NewestFirst(s) && NewestFirst(t)
    requires multiset(s) == multiset(t) && |s| > 0
    ensures k < |t| && t[k] == s[0] && s[0].time == t[0].time
  {
    assert s[0] in multiset(t);
    k :| 0 <= k < |t| && t[k] == s[0];
    assert t[0] in multiset(s);
    var m :| 0 <= m < |s| && s[m] == t[0];
    assert s[0].time >= s[m].time;
  }

  /** Taking out of a newest-first sequence an event as new as its head
      leaves it newest first, with every later time shifted up one place. */
  lemma RemovingHeadTimeKeepsOrder(t: seq<InputEvent>, k: nat)
    requires NewestFirst(t) && k < |t| && t[k].time == t[0].time
    ensures NewestFirst(RemoveAt(t, k))
    ensures forall i :: 0 <= i < |t| - 1 ==> RemoveAt(t, k)[i].time == t[i + 1].time
  {
    var rest := RemoveAt(t, k);
    forall i | 0 <= i < |rest|
      ensures rest[i].time == t[i + 1].time
    {
      if i < k {
        assert t[0].time >= t[i].time >= t[k].time;
        assert t[0].time >= t[i + 1].time >= t[k].time;
      } else {
        assert rest[i] == t[i + 1];
      }
    }
    forall i, j | 0 <= i < j < |rest|
      ensures rest[i].time >= rest[j].time
    {
      assert t[i + 1].time >= t[j + 1].time;
    }
  }

  /** Taking the head of `s` out of `s`, and its match at `k` out of `t`,
      leaves the same events on both sides. */
  lemma RemovingMatchedHeadKeepsMultiset(s: seq<InputEvent>, t: seq<InputEvent>, k: nat)
    requires multiset(s) == multiset(t) && |s| > 0 && k < |t| && t[k] == s[0]
    ensures multiset(s[1..]) == multiset(RemoveAt(t, k))
  {
    assert t == t[..k] + [t[k]] + t[k + 1..];
    assert multiset(t) == multiset(t[..k]) + multiset{t[k]} + multiset(t[k + 1..]);
    assert s == [s[0]] + s[1..];
    assert multiset(s) == multiset{s[0]} + multiset(s[1..]);
    calc {
      multiset(s[1..]);
      multiset(s) - multiset{s[0]};
      multiset(t) - multiset{t[k]};
      multiset(t[..k]) + multiset(t[k + 1..]);
      multiset(RemoveAt(t, k));
    }
  }

  /** `t` with the event at position `k` taken out. */
  function RemoveAt(t: seq<InputEvent>, k: nat): (r: seq<InputEvent>)
    requires k < |t|
    ensures |r| == |t| - 1
  {
    t[..k] + t[k + 1..]
  }
}
