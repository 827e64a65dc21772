/** The camera rotation engine behind the 4x4 video wall.

    Twenty-six cameras are split between `active` (cameras signalling an
    event, shown in large 2x2 slots, in arrival order) and `recent` (the
    waiting list of dormant cameras, most eligible first). The first few
    entries of `recent` fill the single cells the active cameras leave free.
    When a camera stops being active it is put back into `recent` at a slot
    chosen by the replacement cursor, so that consecutive departures cycle
    through the visible cells instead of always bumping the same one.

    The module-level variables of algorithm.js become one immutable
    `State` record, and every operation is a pure function from state to
    state. `getRecentShown` rewrites its own cache on every call, so it
    returns the new state alongside the window it computes. */
module Rotation {
  import opened Seqs

  datatype State = State(
    /** Dormant cameras, most eligible first. */
    recent: seq<int>,
    /** Cameras currently signalling an event, in arrival order. */
    active: seq<int>,
    /** The replacement cursor: the most recently deactivated camera. */
    previousReplacement: Option<int>,
    /** The latest event type of each active camera. */
    eventTypes: map<int, string>,
    /** Cameras with a pending auto-deactivation timer (the keys of the
        timer map; the timer handles themselves are not modelled). */
    timers: set<int>,
    /** The window `getRecentShown` returned last time. */
    lastRecentShown: seq<int>,
    /** The window size `getRecentShown` used last time. */
    lastCountToShow: Option<nat>)

  /** The start-up state: every camera in `recent`, ascending, no cursor,
      nothing active and an empty window cache. */
  function Init(): (st: State)
    ensures Valid(st)
    ensures |st.recent| == NumCameras
    ensures forall i :: 0 <= i < |st.recent| ==> st.recent[i] == i + 1
    ensures st.active == [] && st.previousReplacement.None?
    ensures st.lastRecentShown == [] && st.lastCountToShow.None?
  {
    AllCamerasFacts();
    State(AllCameras(), [], None, map[], {}, [], None)
  }

  /** `recent` and `active` hold every camera exactly once between them. */
  ghost predicate Partition(recent: seq<int>, active: seq<int>) {
    && Distinct(recent)
    && Distinct(active)
    && (forall c :: c in recent ==> c !in active)
    && (forall c :: IsCamera(c) <==> c in recent || c in active)
  }

  /** As `Partition`, except that camera `hole` is in neither list. */
  ghost predicate PartitionBut(recent: seq<int>, active: seq<int>, hole: int) {
    && Distinct(recent)
    && Distinct(active)
    && (forall c :: c in recent ==> c !in active)
    && (forall c :: IsCamera(c) && c != hole <==> c in recent || c in active)
  }

  /** The invariant every operation keeps, apart from the window cache's
      size: the cameras are partitioned, the event-type map and the timer
      map are keyed by exactly the active cameras, the cached window holds
      distinct cameras, and the cursor, if set, is a camera. */
  ghost predicate Coherent(st: State) {
    && Partition(st.recent, st.active)
    && (forall c :: c in st.eventTypes <==> c in st.active)
    && (forall c :: c in st.timers <==> c in st.active)
    && Distinct(st.lastRecentShown)
    && (forall c :: c in st.lastRecentShown ==> IsCamera(c))
    && (st.previousReplacement.Some? ==> IsCamera(st.previousReplacement.value))
  }

  /** The full invariant: `Coherent`, and the cached window size is the one
      that belongs to the current number of active cameras. */
  ghost predicate Valid(st: State) {
    && Coherent(st)
    && (st.lastCountToShow.None? || st.lastCountToShow == Some(WindowSize(|st.active|)))
  }

  /** The number of `recent` cameras the wall shows. Each active camera
      takes a 2x2 block of the 16-cell grid, so the single cells left over
      are 16 minus four per active camera, down to none once four cameras
      are active. */
  function WindowSize(activeCount: nat): (n: nat)
    ensures n + 4 * Min(activeCount, 4) == 16
  {
    if activeCount == 0 then 16
    else if activeCount == 1 then 12
    else if activeCount == 2 then 8
    else if activeCount == 3 then 4
    else 0
  }

  /** More active cameras never leave more room for recent ones. */
  lemma WindowSizeMonotone(a: nat, b: nat)
    requires a <= b
    ensures WindowSize(b) <= WindowSize(a)
    ensures b < 4 && a < b ==> WindowSize(b) < WindowSize(a)
  {
  }

  /** `rotateToStart`: the cyclic rotation of `arr` that starts at the first
      occurrence of `v`, or an unchanged copy when `v` is absent. Read
      cyclically, position `i` of the result is position `i + k` of `arr`,
      where `k` is where `v` first occurs. */
  function RotateToStart(arr: seq<int>, v: int): (r: seq<int>)
    ensures |r| == |arr|
    ensures multiset(r) == multiset(arr)
    ensures forall x :: x in r <==> x in arr
    ensures Distinct(arr) ==> Distinct(r)
    ensures v !in arr ==> r == arr
    ensures v in arr ==> r[0] == v
    ensures v in arr ==> forall i :: 0 <= i < |r| ==> r[i] == CyclicAt(arr, IndexOf(arr, v), i)
  {
    var k := IndexOf(arr, v);
    if k == -1 then arr
    else
      SwapHalvesElements(arr, k);
      SwapHalvesCyclic(arr, k);
      if Distinct(arr) then SwapHalvesDistinct(arr, k); arr[k..] + arr[..k]
      else arr[k..] + arr[..k]
  }

  /** Swapping the halves of a list around `k` keeps its elements. */
  lemma SwapHalvesElements(arr: seq<int>, k: int)
    requires 0 <= k <= |arr|
    ensures multiset(arr[k..] + arr[..k]) == multiset(arr)
    ensures forall x :: x in arr[k..] + arr[..k] <==> x in arr
  {
    assert arr == arr[..k] + arr[k..];
    var r := arr[k..] + arr[..k];
    assert forall x :: x in r <==> x in multiset(r);
    assert forall x :: x in arr <==> x in multiset(arr);
  }

  /** Swapping the halves of a duplicate-free list keeps it duplicate-free. */
  lemma SwapHalvesDistinct(arr: seq<int>, k: int)
    requires Distinct(arr)
    requires 0 <= k <= |arr|
    ensures Distinct(arr[k..] + arr[..k])
  {
    DistinctSlices(arr, k);
    DistinctConcat(arr[k..], arr[..k]);
  }

  /** Swapping the halves around `k` reads the list cyclically from `k`. */
  lemma SwapHalvesCyclic(arr: seq<int>, k: int)
    requires 0 <= k < |arr|
    ensures forall i :: 0 <= i < |arr| ==> (arr[k..] + arr[..k])[i] == CyclicAt(arr, k, i)
  {
  }

  /** Element `i` of `arr` read cyclically from position `start`. */
  function CyclicAt(arr: seq<int>, start: int, i: int): int
    requires 0 <= start < |arr| && 0 <= i < |arr|
  {
    if start + i < |arr| then arr[start + i] else arr[start + i - |arr|]
  }

  /** Rotating a duplicate-free list to any of its members and then back to
      its original head restores it. */
  lemma RotateToStartUndo(arr: seq<int>, v: int)
    requires Distinct(arr)
    requires v in arr
    ensures RotateToStart(RotateToStart(arr, v), arr[0]) == arr
  {
    var k := IndexOf(arr, v);
    var r := arr[k..] + arr[..k];
    RotateHalves(arr, k, v);
    var n := |arr| - k;
    DistinctSlices(arr, k);
    DistinctConcat(arr[k..], arr[..k]);
    if k > 0 {
      assert r[n] == arr[0];
      RotateHalves(r, n, arr[0]);
      SwapHalvesBack(arr, k);
    } else {
      assert r == arr;
      RotateHalves(arr, 0, arr[0]);
    }
  }

  lemma SwapHalvesBack(arr: seq<int>, k: int)
    requires 0 <= k <= |arr|
    ensures var r := arr[k..] + arr[..k];
            r[|arr| - k..] + r[..|arr| - k] == arr
  {
    var r := arr[k..] + arr[..k];
    assert r[|arr| - k..] == arr[..k];
    assert r[..|arr| - k] == arr[k..];
    assert arr == arr[..k] + arr[k..];
  }

  /** Rotating a duplicate-free list to its element at position `n` splits
      it there and swaps the halves. */
  lemma RotateHalves(r: seq<int>, n: int, h: int)
    requires Distinct(r)
    requires 0 <= n < |r| && r[n] == h
    ensures RotateToStart(r, h) == r[n..] + r[..n]
  {
    IndexOfDistinct(r, n);
  }

  /** `rotateToStart(list, previousReplacement)`: a null cursor is never
      found in a list of numbers, so it leaves the list as it is. */
  function RotateToCursor(s: seq<int>, cursor: Option<int>): (r: seq<int>)
    ensures multiset(r) == multiset(s)
    ensures forall x :: x in r <==> x in s
    ensures Distinct(s) ==> Distinct(r)
    ensures cursor.Some? && cursor.value in s ==> r[0] == cursor.value
    ensures cursor.None? || cursor.value !in s ==> r == s
  {
    match cursor
    case None => s
    case Some(p) => RotateToStart(s, p)
  }

  /** Whether `getRecentShown` takes its shrink branch: the window is
      smaller than last time and some camera of the last window is still
      not active. */
  predicate Shrinks(st: State) {
    && st.lastCountToShow.Some?
    && st.lastCountToShow.value > WindowSize(|st.active|)
    && |st.lastRecentShown| > 0
    && |Without(st.lastRecentShown, st.active)| > 0
  }

  /** `getRecentShown`: the cameras shown in the single cells, together with
      the state whose window cache now records them.

      Normally the window is the head of `recent` without the active
      cameras (padded with cameras missing from both lists if it runs
      short). When the window shrinks, the previous window, without the
      cameras that have since become active, is rotated to the cursor and
      cut to the new size, so the camera that last came back is first in
      the window this call returns. */
  function RecentShown(st: State): (r: (seq<int>, State))
    ensures |r.0| <= WindowSize(|st.active|)
    ensures forall c :: c in r.0 ==> c !in st.active
    ensures r.1 == st.(lastRecentShown := r.0, lastCountToShow := Some(WindowSize(|st.active|)))
    ensures Shrinks(st) ==> forall c :: c in r.0 ==> c in st.lastRecentShown
    ensures !Shrinks(st) ==> forall c :: c in r.0 ==> c in st.recent || IsCamera(c)
    ensures Distinct(st.recent) && Distinct(st.lastRecentShown) ==> Distinct(r.0)
  {
    var count := WindowSize(|st.active|);
    var nonActive := Without(st.recent, st.active);
    var candidates :=
      if |nonActive| < count then nonActive + Missing(st.recent, st.active) else nonActive;
    assert Distinct(st.recent) ==> Distinct(candidates) by {
      if Distinct(st.recent) && |nonActive| < count {
        DistinctConcat(nonActive, Missing(st.recent, st.active));
      }
    }
    var rotated := RotateToCursor(Without(st.lastRecentShown, st.active), st.previousReplacement);
    var shown := if Shrinks(st) then Take(rotated, count) else Take(candidates, count);
    (shown, st.(lastRecentShown := shown, lastCountToShow := Some(count)))
  }

  /** `getActiveShown`: the active cameras, in arrival order. */
  function ActiveShown(st: State): seq<int> {
    st.active
  }

  /** Outside the shrink branch, and with the lists in order, the window is
      exactly the first `WindowSize` entries of `recent`. */
  lemma WindowIsHeadOfRecent(st: State)
    requires !Shrinks(st)
    requires Distinct(st.recent)
    requires forall c :: c in st.recent ==> c !in st.active
    requires |st.recent| >= WindowSize(|st.active|)
    ensures RecentShown(st).0 == st.recent[..WindowSize(|st.active|)]
  {
    WithoutDisjoint(st.recent, st.active);
  }

  /** In the shrink branch the window is a run of the surviving previous
      window, read cyclically from the cursor: the cursor, if it survived,
      is first in the window this call returns. */
  lemma ShrinkKeepsCursorFirst(st: State)
    requires Shrinks(st)
    requires st.previousReplacement.Some?
    requires st.previousReplacement.value in st.lastRecentShown
    requires st.previousReplacement.value !in st.active
    ensures var last := Without(st.lastRecentShown, st.active);
            var k := IndexOf(last, st.previousReplacement.value);
            var w := RecentShown(st).0;
            && |w| == Min(WindowSize(|st.active|), |last|)
            && (forall i :: 0 <= i < |w| ==> w[i] == CyclicAt(last, k, i))
            && (|w| > 0 ==> w[0] == st.previousReplacement.value)
  {
    var last := Without(st.lastRecentShown, st.active);
    var rotated := RotateToStart(last, st.previousReplacement.value);
    assert RecentShown(st).0 == Take(rotated, WindowSize(|st.active|));
  }

  /** In the shrink branch with no cursor, or one that did not survive,
      the previous window is not rotated: the new window is the head of
      what is left of it. */
  lemma ShrinkWithoutCursor(st: State)
    requires Shrinks(st)
    requires st.previousReplacement.None?
          || st.previousReplacement.value !in Without(st.lastRecentShown, st.active)
    ensures RecentShown(st).0 == Take(Without(st.lastRecentShown, st.active), WindowSize(|st.active|))
  {
  }

  /** `onCameraActivate`, without its timer and display side effects: take
      the camera out of `recent`, append it to `active` unless it is already
      there, record its event type, (re)arm its timer, repair the
      partition, and compute the window once more (the logging call does
      this, and it updates the window cache). */
  function Activate(st: State, cam: int, eventType: string): (r: State)
    ensures cam in st.active ==> r.active == st.active
    ensures cam !in st.active ==> r.active == st.active + [cam]
    ensures r.eventTypes == st.eventTypes[cam := eventType]
    ensures r.timers == st.timers + {cam}
    ensures r.previousReplacement == st.previousReplacement
    ensures Distinct(st.recent) ==> cam !in r.recent
    ensures r.lastCountToShow == Some(WindowSize(|r.active|))
  {
    RecentShown(ActivateBeforeLog(st, cam, eventType)).1
  }

  /** The state `onCameraActivate` has built just before its logging call
      recomputes the window. */
  function ActivateBeforeLog(st: State, cam: int, eventType: string): State {
    var recent1 := RemoveFirst(st.recent, cam);
    var active1 := AppendNew(st.active, cam);
    st.(
      recent := recent1 + Missing(recent1, active1),
      active := active1,
      eventTypes := st.eventTypes[cam := eventType],
      timers := st.timers + {cam})
  }

  /** Activation keeps the invariant; the camera is then active exactly
      once, and `recent` has lost exactly that camera with the others in
      their old order, so the repair step appended nothing. */
  lemma ActivatePreservesValid(st: State, cam: int, eventType: string)
    requires Valid(st)
    requires IsCamera(cam)
    ensures var r := Activate(st, cam, eventType);
            && Valid(r)
            && multiset(r.active)[cam] == 1
            && var k := IndexOf(st.recent, cam);
               (k == -1 ==> r.recent == st.recent)
               && (k != -1 ==> r.recent == st.recent[..k] + st.recent[k + 1..])
  {
    ActivateLists(st.recent, st.active, cam);
    ActivateCoherent(st, cam, eventType);
    RefreshValid(ActivateBeforeLog(st, cam, eventType));
  }

  /** Before the window is recomputed, activation has kept everything but
      the window cache's size in order. */
  lemma ActivateCoherent(st: State, cam: int, eventType: string)
    requires Valid(st)
    requires IsCamera(cam)
    ensures Coherent(ActivateBeforeLog(st, cam, eventType))
  {
    ActivateLists(st.recent, st.active, cam);
    var b := ActivateBeforeLog(st, cam, eventType);
    assert b.recent == RemoveFirst(st.recent, cam);
  }

  /** The list surgery of activation on a partition: the result is again a
      partition with the camera active once, so the repair appends nothing,
      and `recent` has lost just that camera. */
  lemma ActivateLists(recent: seq<int>, active: seq<int>, cam: int)
    requires Partition(recent, active)
    requires IsCamera(cam)
    ensures var recent1 := RemoveFirst(recent, cam);
            var active1 := AppendNew(active, cam);
            && Partition(recent1, active1)
            && Missing(recent1, active1) == []
            && multiset(active1)[cam] == 1
            && var k := IndexOf(recent, cam);
               (k == -1 ==> recent1 == recent)
               && (k != -1 ==> recent1 == recent[..k] + recent[k + 1..])
  {
    ActivatePartition(recent, active, cam);
    MissingNone(RemoveFirst(recent, cam), AppendNew(active, cam));
    AppendNewDistinct(active, cam);
    RemoveFirstShape(recent, cam);
  }

  /** Moving a camera from `recent` to `active` keeps the partition. */
  lemma ActivatePartition(recent: seq<int>, active: seq<int>, cam: int)
    requires Partition(recent, active)
    requires IsCamera(cam)
    ensures Partition(RemoveFirst(recent, cam), AppendNew(active, cam))
  {
    AppendNewDistinct(active, cam);
  }

  /** Recomputing the window on a coherent state yields a valid state: the
      window holds distinct cameras and its size is the current one. */
  lemma RefreshValid(st: State)
    requires Coherent(st)
    ensures Valid(RecentShown(st).1)
  {
    var w := RecentShown(st).0;
    assert forall c :: c in w ==> IsCamera(c);
  }

  /** Steps 1 and 2 of `onCameraDeactivate`: take the camera out of
      `active` and `recent`, cancel its timer and forget its event type. */
  function Detach(st: State, cam: int): (r: State)
    ensures cam !in r.eventTypes && cam !in r.timers
    ensures Distinct(st.active) ==> cam !in r.active
    ensures Distinct(st.recent) ==> cam !in r.recent
  {
    st.(
      active := RemoveFirst(st.active, cam),
      timers := st.timers - {cam},
      eventTypes := st.eventTypes - {cam},
      recent := RemoveFirst(st.recent, cam))
  }

  /** The re-insertion rule of `onCameraDeactivate`. Without a cursor the
      camera goes to the front. Otherwise it takes over, in place, the slot
      of the window entry that follows the cursor, or of the window's first
      entry when the cursor is absent from the window or is its last entry;
      the fallbacks for entries not found in `recent` are kept. */
  function Place(recent: seq<int>, window: seq<int>, cursor: Option<int>, cam: int): (r: seq<int>)
    ensures cam in r
    ensures cursor.None? ==> r == [cam] + recent
    ensures r == [cam] + recent || exists j :: 0 <= j < |recent| && r == Replace(recent, j, cam)
  {
    match cursor
    case None => [cam] + recent
    case Some(p) =>
      var i := IndexOf(window, p);
      if i == -1 || i + 1 >= |window| then
        if |window| > 0 then
          var k := IndexOf(recent, window[0]);
          if k != -1 then Replace(recent, k, cam) else [cam] + recent
        else
          [cam] + recent
      else
        var k := IndexOf(recent, window[i + 1]);
        if k != -1 then Replace(recent, k, cam)
        else
          var q := IndexOf(recent, p);
          if q != -1 && q + 1 < |recent| then Replace(recent, q + 1, cam) else [cam] + recent
  }

  /** `onCameraDeactivate`, without its timer and display side effects:
      detach the camera, compute the reference window, put the camera back
      into `recent` by `Place`, repair the partition (which re-appends a
      displaced camera at the tail), move the cursor to the camera, and
      compute the window once more for the log. */
  function Deactivate(st: State, cam: int): (r: State)
    ensures cam !in r.eventTypes && cam !in r.timers
    ensures r.eventTypes == st.eventTypes - {cam}
    ensures r.timers == st.timers - {cam}
    ensures r.previousReplacement == Some(cam)
    ensures cam in r.recent
    ensures st.previousReplacement.None? ==> r.recent[0] == cam
    ensures Distinct(st.active) ==> cam !in r.active
    ensures r.active == RemoveFirst(st.active, cam)
    ensures r.lastCountToShow == Some(WindowSize(|r.active|))
  {
    var st1 := Detach(st, cam);
    var p := RecentShown(st1);
    var window := p.0;
    var st2 := p.1;
    var recent2 := Place(st2.recent, window, st2.previousReplacement, cam);
    var st3 := st2.(
      recent := recent2 + Missing(recent2, st2.active),
      previousReplacement := Some(cam));
    RecentShown(st3).1
  }

  /** After detaching a camera from a valid state, the two lists hold every
      other camera once, and the reference window is the head of `recent`
      at its full size: the shrink branch cannot fire, because the window
      only grows when a camera leaves `active`, and `recent` is long enough
      that no padding is needed. */
  lemma DetachFacts(st: State, cam: int)
    requires Valid(st)
    requires IsCamera(cam)
    ensures var st1 := Detach(st, cam);
            && PartitionBut(st1.recent, st1.active, cam)
            && |st1.recent| + |st1.active| == NumCameras - 1
            && !Shrinks(st1)
            && RecentShown(st1).0 == st1.recent[..WindowSize(|st1.active|)]
  {
    var st1 := Detach(st, cam);
    assert PartitionBut(st1.recent, st1.active, cam);
    CameraSetSize();
    var u := CameraSet() - {cam};
    assert |u| == NumCameras - 1;
    PartitionSize(st1.recent, st1.active, u);
    WindowSizeMonotone(|st1.active|, |st.active|);
    assert WindowSize(|st1.active|) <= |st1.recent|;
    WindowIsHeadOfRecent(st1);
  }

  /** Deactivation keeps the invariant, and the camera is then in `recent`
      exactly once and not active. */
  lemma DeactivatePreservesValid(st: State, cam: int)
    requires Valid(st)
    requires IsCamera(cam)
    ensures var r := Deactivate(st, cam);
            && Valid(r)
            && multiset(r.recent)[cam] == 1
            && cam !in r.active
  {
    DeactivateCoherent(st, cam);
    RefreshValid(DeactivateBeforeLog(st, cam));
  }

  /** Before the window is recomputed, deactivation has kept everything but
      the window cache's size in order, with the camera in `recent` once. */
  lemma DeactivateCoherent(st: State, cam: int)
    requires Valid(st)
    requires IsCamera(cam)
    ensures var st3 := DeactivateBeforeLog(st, cam);
            && Coherent(st3)
            && multiset(st3.recent)[cam] == 1
  {
    var st1 := Detach(st, cam);
    DetachFacts(st, cam);
    DeactivateRoundRobin(st, cam);
    var w := RecentShown(st1).0;
    var recent3 := Deactivate(st, cam).recent;
    RoundRobinShape(st1.recent, w, st.previousReplacement, cam, recent3);
    PlacedPartition(st1.recent, st1.active, cam, recent3);
  }

  /** Each outcome of the round-robin rule is the camera in front, or the
      camera over one slot with the displaced camera at the tail. */
  lemma RoundRobinShape(recent1: seq<int>, w: seq<int>, cursor: Option<int>, cam: int, r: seq<int>)
    requires |w| <= |recent1| && w == recent1[..|w|]
    requires RoundRobinPlaced(recent1, w, cursor, cam, r)
    ensures r == [cam] + recent1
         || exists j :: 0 <= j < |recent1| && r == Replace(recent1, j, cam) + [recent1[j]]
  {
    if cursor.Some? && |w| > 0 {
      var i := IndexOf(w, cursor.value);
      var j := if 0 <= i < |w| - 1 then i + 1 else 0;
      assert w[j] == recent1[j];
      assert r == Replace(recent1, j, cam) + [recent1[j]];
    }
  }

  /** The state `onCameraDeactivate` has built just before its logging call
      recomputes the window. */
  function DeactivateBeforeLog(st: State, cam: int): (r: State)
    ensures RecentShown(r).1 == Deactivate(st, cam)
    ensures r.recent == Deactivate(st, cam).recent
    ensures r.lastRecentShown == RecentShown(Detach(st, cam)).0
  {
    var st1 := Detach(st, cam);
    var p := RecentShown(st1);
    var st2 := p.1;
    var recent2 := Place(st2.recent, p.0, st2.previousReplacement, cam);
    st2.(recent := recent2 + Missing(recent2, st2.active), previousReplacement := Some(cam))
  }

  /** The `recent` list the round-robin rule produces is one of three
      shapes; each, next to the detached `active`, is again a partition with
      the camera in `recent` exactly once. */
  lemma PlacedPartition(recent1: seq<int>, active1: seq<int>, cam: int, recent3: seq<int>)
    requires PartitionBut(recent1, active1, cam)
    requires IsCamera(cam)
    requires recent3 == [cam] + recent1
          || exists j :: 0 <= j < |recent1| && recent3 == Replace(recent1, j, cam) + [recent1[j]]
    ensures Partition(recent3, active1)
    ensures multiset(recent3)[cam] == 1
  {
    assert cam !in recent1;
    if recent3 == [cam] + recent1 {
      DistinctConcat([cam], recent1);
    } else {
      var j :| 0 <= j < |recent1| && recent3 == Replace(recent1, j, cam) + [recent1[j]];
      var d := recent1[j];
      ReplaceFresh(recent1, j, cam);
      DistinctConcat(Replace(recent1, j, cam), [d]);
    }
    DistinctCount(recent3, cam);
  }

  /** The round-robin rule on a valid state. Let the reference window be
      the shown list computed after the camera is detached; it is the head
      of `recent` at full size. If the cursor sits in it before its last
      entry, the camera takes over the slot of the entry after the cursor;
      otherwise it takes over the slot of the window's first entry; when the
      window is empty (or there is no cursor yet) the camera goes to the
      front. A displaced camera is re-appended at the tail. */
  lemma DeactivateRoundRobin(st: State, cam: int)
    requires Valid(st)
    requires IsCamera(cam)
    ensures var st1 := Detach(st, cam);
            var w := RecentShown(st1).0;
            && w == Take(st1.recent, WindowSize(|st1.active|))
            && |w| == WindowSize(|st1.active|)
            && RoundRobinPlaced(st1.recent, w, st.previousReplacement, cam, Deactivate(st, cam).recent)
  {
    var st1 := Detach(st, cam);
    DetachFacts(st, cam);
    DeactivateRecent(st, cam);
    RoundRobinLists(st1.recent, st1.active, cam, RecentShown(st1).0, st.previousReplacement);
  }

  /** The `recent` list `onCameraDeactivate` leaves: the placement applied to
      the detached list and its reference window, followed by the repair. */
  lemma DeactivateRecent(st: State, cam: int)
    ensures var st1 := Detach(st, cam);
            var recent2 := Place(st1.recent, RecentShown(st1).0, st.previousReplacement, cam);
            Deactivate(st, cam).recent == recent2 + Missing(recent2, st1.active)
  {
    var st1 := Detach(st, cam);
    var p := RecentShown(st1);
    assert p.1.recent == st1.recent && p.1.active == st1.active;
    assert p.1.previousReplacement == st.previousReplacement;
  }

  /** The outcome the round-robin rule promises, for a window `w` that is a
      head of `recent1`: with no cursor, or an empty window, the camera is
      put in front; if the cursor sits in the window before its last entry,
      the camera overwrites the slot of the entry after the cursor;
      otherwise it overwrites the slot of the window's first entry. An
      overwritten camera reappears at the tail. */
  ghost predicate RoundRobinPlaced(recent1: seq<int>, w: seq<int>, cursor: Option<int>, cam: int, r: seq<int>)
    requires |w| <= |recent1|
  {
    if cursor.None? || |w| == 0 then
      r == [cam] + recent1
    else
      var i := IndexOf(w, cursor.value);
      if 0 <= i < |w| - 1 then
        r == Replace(recent1, i + 1, cam) + [w[i + 1]]
      else
        r == Replace(recent1, 0, cam) + [w[0]]
  }

  /** The round-robin rule as list surgery: `recent1`/`active1` hold every
      camera but `cam`, and the window is a head of `recent1`. */
  lemma RoundRobinLists(recent1: seq<int>, active1: seq<int>, cam: int, w: seq<int>, cursor: Option<int>)
    requires PartitionBut(recent1, active1, cam)
    requires IsCamera(cam)
    requires |w| <= |recent1| && w == recent1[..|w|]
    ensures var recent2 := Place(recent1, w, cursor, cam);
            RoundRobinPlaced(recent1, w, cursor, cam, recent2 + Missing(recent2, active1))
  {
    var recent2 := Place(recent1, w, cursor, cam);
    assert cam !in recent1;
    match cursor
    case None =>
      MissingNone(recent2, active1);
    case Some(p) =>
      PlaceOnWindowHead(recent1, w, p, cam);
      var i := IndexOf(w, p);
      if 0 <= i < |w| - 1 {
        assert w[i + 1] == recent1[i + 1];
        ReplacedMissing(recent1, active1, cam, i + 1);
      } else if |w| > 0 {
        assert w[0] == recent1[0];
        ReplacedMissing(recent1, active1, cam, 0);
      } else {
        MissingNone(recent2, active1);
      }
  }

  /** `Place` when the window is the head of a duplicate-free `recent`:
      every entry of the window is found at its own position, so the
      fallbacks never apply. */
  lemma PlaceOnWindowHead(recent: seq<int>, w: seq<int>, p: int, cam: int)
    requires Distinct(recent)
    requires |w| <= |recent| && w == recent[..|w|]
    ensures var i := IndexOf(w, p);
            var r := Place(recent, w, Some(p), cam);
            if 0 <= i < |w| - 1 then r == Replace(recent, i + 1, cam)
            else if |w| > 0 then r == Replace(recent, 0, cam)
            else r == [cam] + recent
  {
    var i := IndexOf(w, p);
    if 0 <= i < |w| - 1 {
      assert w[i + 1] == recent[i + 1];
      IndexOfDistinct(recent, i + 1);
    } else if |w| > 0 {
      assert w[0] == recent[0];
      IndexOfDistinct(recent, 0);
    }
  }

  /** Overwriting the slot `j` with the detached camera leaves exactly the
      displaced camera unaccounted for, so the repair appends just it. */
  lemma ReplacedMissing(recent1: seq<int>, active1: seq<int>, cam: int, j: int)
    requires PartitionBut(recent1, active1, cam)
    requires IsCamera(cam)
    requires 0 <= j < |recent1|
    ensures Missing(Replace(recent1, j, cam), active1) == [recent1[j]]
  {
    var d := recent1[j];
    assert d in recent1;
    ReplaceFresh(recent1, j, cam);
    MissingOne(Replace(recent1, j, cam), active1, d);
  }

  /** The debounced render reads the window at fire time, which also
      refreshes the window cache. */
  function Render(st: State): (r: State)
    ensures r.recent == st.recent && r.active == st.active
    ensures r.lastCountToShow == Some(WindowSize(|st.active|))
  {
    RecentShown(st).1
  }

  /** The inputs that drive the engine: an event for a camera, a timer (or
      anything else) deactivating a camera, and the debounced render firing. */
  datatype Event =
    | Activated(cam: int, eventType: string)
    | Deactivated(cam: int)
    | RenderFired

  predicate InRange(e: Event) {
    e.RenderFired? || IsCamera(e.cam)
  }

  function Step(st: State, e: Event): State {
    match e
    case Activated(cam, eventType) => Activate(st, cam, eventType)
    case Deactivated(cam) => Deactivate(st, cam)
    case RenderFired => Render(st)
  }

  /** The engine after processing `es` in order from `st`. */
  function Run(st: State, es: seq<Event>): State
    decreases |es|
  {
    if |es| == 0 then st else Run(Step(st, es[0]), es[1..])
  }

  /** Every sequence of in-range events keeps the invariant: at every
      moment each of the 26 cameras is in exactly one of `recent` and
      `active`, exactly once. */
  lemma {:induction false} RunPreservesValid(st: State, es: seq<Event>)
    requires Valid(st)
    requires forall e :: e in es ==> InRange(e)
    ensures Valid(Run(st, es))
    decreases |es|
  {
    if |es| > 0 {
      var e := es[0];
      assert e in es;
      StepPreservesValid(st, e);
      assert forall x :: x in es[1..] ==> x in es;
      RunPreservesValid(Step(st, e), es[1..]);
    }
  }

  /** Each single input keeps the invariant. */
  lemma StepPreservesValid(st: State, e: Event)
    requires Valid(st)
    requires InRange(e)
    ensures Valid(Step(st, e))
  {
    match e
    case Activated(cam, eventType) => ActivatePreservesValid(st, cam, eventType);
    case Deactivated(cam) => DeactivatePreservesValid(st, cam);
    case RenderFired => RefreshValid(st);
  }

  /** On a valid state the wall never shows a camera twice: the active
      cameras and the window are each duplicate-free and share nothing. */
  lemma ShownDisjoint(st: State)
    requires Valid(st)
    ensures var w := RecentShown(st).0;
            && Distinct(ActiveShown(st)) && Distinct(w)
            && (forall c :: c in w ==> c !in ActiveShown(st) && IsCamera(c))
  {
    var w := RecentShown(st).0;
    assert forall c :: c in w ==> IsCamera(c);
  }

  /** Activating a camera that is not yet active shrinks the window while
      fewer than four cameras are active; if the cursor was in the last
      window and is still not active, it is first in the window the
      logging call stores. */
  lemma ActivateKeepsCursorVisible(st: State, cam: int, eventType: string)
    requires Valid(st)
    requires IsCamera(cam) && cam !in st.active
    requires |st.active| < 3
    requires st.lastCountToShow.Some?
    requires st.previousReplacement.Some?
    requires st.previousReplacement.value in st.lastRecentShown
    requires st.previousReplacement.value != cam
    requires st.previousReplacement.value !in st.active
    ensures var r := Activate(st, cam, eventType);
            |r.lastRecentShown| > 0 && r.lastRecentShown[0] == st.previousReplacement.value
  {
    var p := st.previousReplacement.value;
    var recent1 := RemoveFirst(st.recent, cam);
    var active1 := st.active + [cam];
    var st1 := st.(
      recent := recent1 + Missing(recent1, active1),
      active := active1,
      eventTypes := st.eventTypes[cam := eventType],
      timers := st.timers + {cam});
    assert Activate(st, cam, eventType) == RecentShown(st1).1;
    WindowSizeMonotone(|st.active|, |active1|);
    assert p !in active1;
    assert p in Without(st1.lastRecentShown, st1.active);
    assert Shrinks(st1);
    ShrinkKeepsCursorFirst(st1);
  }

  /** On a valid state the cache always matches the current window size,
      so the shrink branch does not fire and the window is the head of
      `recent` at full size. */
  lemma ValidWindowIsHead(st: State)
    requires Valid(st)
    ensures var w := RecentShown(st).0;
            && |w| == WindowSize(|st.active|)
            && w == Take(st.recent, WindowSize(|st.active|))
  {
    CameraSetSize();
    PartitionSize(st.recent, st.active, CameraSet());
    WindowIsHeadOfRecent(st);
  }

  /** The window the debounced render reads after any activation: the
      logging call of `onCameraActivate` has already stored the new window
      size, so the shrink rule cannot apply again, and the render shows the
      head of `recent` at full size, which never contains the camera. */
  lemma ActivateThenWindow(st: State, cam: int, eventType: string)
    requires Valid(st)
    requires IsCamera(cam)
    ensures var r := Activate(st, cam, eventType);
            var w := RecentShown(r).0;
            && w == Take(r.recent, WindowSize(|r.active|))
            && |w| == WindowSize(|r.active|)
            && cam !in w
  {
    ActivatePreservesValid(st, cam, eventType);
    ValidWindowIsHead(Activate(st, cam, eventType));
  }

  /** The wall loses the cursor, as the code is written: from an idle state
      whose cache holds the first 16 of `recent` and whose cursor is the
      15th of them, activating the 20th camera of `recent` makes the
      logging call store a window that starts at the cursor, but the
      render that follows shows the first 12 of `recent`, without it. */
  lemma WallDropsCursor(st: State, eventType: string)
    requires Valid(st) && st.active == []
    requires |st.recent| == NumCameras
    requires st.lastRecentShown == st.recent[..16]
    requires st.lastCountToShow == Some(16)
    requires st.previousReplacement == Some(st.recent[14])
    ensures var r := Activate(st, st.recent[19], eventType);
            && |r.lastRecentShown| > 0 && r.lastRecentShown[0] == st.recent[14]
            && st.recent[14] !in RecentShown(r).0
  {
    var cam, p := st.recent[19], st.recent[14];
    assert st.lastRecentShown[14] == p;
    ActivateKeepsCursorVisible(st, cam, eventType);
    ActivateThenWindow(st, cam, eventType);
    LateRemovalKeepsHead(st.recent, 19, Missing(RemoveFirst(st.recent, cam), AppendNew(st.active, cam)));
  }

  /** Removing a duplicate-free list's entry at position `k` and appending
      anything leaves the first `k` entries in place. */
  lemma LateRemovalKeepsHead(s: seq<int>, k: int, tail: seq<int>)
    requires Distinct(s) && 0 <= k < |s|
    ensures (RemoveFirst(s, s[k]) + tail)[..k] == s[..k]
  {
    IndexOfDistinct(s, k);
    RemoveFirstShape(s, s[k]);
  }

  /** `onCameraActivate` as the comments on the window cache describe it:
      the logging call only reads the window and leaves the cache alone, so
      the render that follows still sees the window the wall showed before
      the activation and can take the shrink branch. It agrees with
      `Activate` on everything but the cache. */
  function ActivateIntended(st: State, cam: int, eventType: string): (r: State)
    ensures r.lastRecentShown == st.lastRecentShown
    ensures r.lastCountToShow == st.lastCountToShow
    ensures var a := Activate(st, cam, eventType);
            a == r.(lastRecentShown := a.lastRecentShown, lastCountToShow := a.lastCountToShow)
  {
    ActivateBeforeLog(st, cam, eventType)
  }

  /** With the corrected activation the render that follows keeps the
      state valid. */
  lemma IntendedRenderPreservesValid(st: State, cam: int, eventType: string)
    requires Valid(st)
    requires IsCamera(cam)
    ensures Valid(Render(ActivateIntended(st, cam, eventType)))
  {
    ActivateLists(st.recent, st.active, cam);
    ActivateCoherent(st, cam, eventType);
    RefreshValid(ActivateBeforeLog(st, cam, eventType));
  }

  /** With the corrected activation the wall itself shows the cursor
      first whenever the window shrinks and the cursor was on the wall. */
  lemma IntendedWallKeepsCursor(st: State, cam: int, eventType: string)
    requires Valid(st)
    requires IsCamera(cam) && cam !in st.active
    requires |st.active| < 3
    requires st.lastCountToShow.Some?
    requires st.previousReplacement.Some?
    requires st.previousReplacement.value in st.lastRecentShown
    requires st.previousReplacement.value != cam
    requires st.previousReplacement.value !in st.active
    ensures var w := RecentShown(ActivateIntended(st, cam, eventType)).0;
            |w| > 0 && w[0] == st.previousReplacement.value
  {
    var st1 := ActivateIntended(st, cam, eventType);
    WindowSizeMonotone(|st.active|, |st1.active|);
    assert st.previousReplacement.value in Without(st1.lastRecentShown, st1.active);
    assert Shrinks(st1);
    ShrinkKeepsCursorFirst(st1);
  }

  /** The first departure ever puts the camera at the front of `recent`,
      and so first in the window that is computed next. */
  lemma FirstDeactivation(st: State, cam: int)
    requires Valid(st)
    requires IsCamera(cam)
    requires st.previousReplacement.None?
    ensures var r := Deactivate(st, cam);
            var w := RecentShown(r).0;
            && r.recent[0] == cam
            && |w| == WindowSize(|r.active|)
            && (|w| > 0 ==> w[0] == cam)
  {
    DeactivatePreservesValid(st, cam);
    ValidWindowIsHead(Deactivate(st, cam));
  }

  /** The idle walk-through, for any idle state (nothing
      active, no cursor yet), such as the start-up state: activating a
      camera makes it the only active camera, with a 12-camera window that
      excludes it; deactivating it again, as the first departure ever,
      empties `active` and puts the camera at the front of `recent` and
      first in the 16-camera window. */
  lemma IdleRoundTrip(st: State, cam: int, eventType: string)
    requires Valid(st)
    requires IsCamera(cam)
    requires st.active == [] && st.previousReplacement.None?
    ensures var s1 := Activate(st, cam, eventType);
            var w1 := RecentShown(s1).0;
            && s1.active == [cam] && |w1| == 12 && cam !in w1
    ensures var s2 := Deactivate(Activate(st, cam, eventType), cam);
            var w2 := RecentShown(s2).0;
            && s2.active == [] && s2.recent[0] == cam
            && |w2| == 16 && w2[0] == cam
  {
    ActivateThenWindow(st, cam, eventType);
    ActivatePreservesValid(st, cam, eventType);
    ComeAndGo(Activate(st, cam, eventType), cam);
  }

  /** A camera that is the only active one leaves `active` empty when it
      departs; if it is the first departure ever it heads `recent` and the
      full 16-camera window. */
  lemma ComeAndGo(st: State, cam: int)
    requires Valid(st)
    requires IsCamera(cam)
    requires st.active == [cam]
    requires st.previousReplacement.None?
    ensures var r := Deactivate(st, cam);
            var w := RecentShown(r).0;
            && r.active == [] && r.recent[0] == cam
            && |w| == 16 && w[0] == cam
  {
    FirstDeactivation(st, cam);
    var r := Deactivate(st, cam);
    assert cam in st.active;
    assert |r.active| == 0;
  }
}
