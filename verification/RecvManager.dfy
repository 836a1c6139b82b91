/**
The 256-slot receive manager of `src/node/node_recv_manager.c`.

Every call holds the manager's mutex from start to end, so a run of many threads is a
sequence of calls; `Run` ranges over all of them.
*/
module RecvManager {

  const SLOTS := 256

  type Index = i: nat | i < 256

  datatype Option<+T> = None | Some(value: T)

  // ------------------------------------------------------------ states and calls

  /** Which slots are busy, and the two wrapping indices. */
  datatype State = State(busy: seq<bool>, nextFree: Index, nextBusy: Index) {
    ghost predicate Valid() { |busy| == SLOTS }
  }

  /** Steps upwards, modulo 256, from one slot to another. */
  function Distance(from: Index, to: Index): (d: Index)
    ensures At(from, d) == to
  {
    if from <= to then to - from else to + SLOTS - from
  }

  /** The slot `k` steps above `start`, modulo 256. */
  function At(start: Index, k: nat): (i: Index)
    requires k <= SLOTS
    ensures i == (start + k) % SLOTS
    ensures k < SLOTS ==> (if start <= i then i - start else i + SLOTS - start) == k
  {
    if start + k < SLOTS then start + k else start + k - SLOTS
  }

  function Next(i: Index): Index { At(i, 1) }

  /** Scan all slots cyclically from `start`, having already passed `k` of them, for status `want`. */
  function Scan(busy: seq<bool>, want: bool, start: Index, k: nat): Option<Index>
    requires |busy| == SLOTS && k <= SLOTS
    decreases |busy| - k
  {
    if k == SLOTS then None
    else if busy[At(start, k)] == want then Some(At(start, k))
    else Scan(busy, want, start, k + 1)
  }

  ghost predicate IsNearest(busy: seq<bool>, want: bool, start: Index, r: Option<Index>)
    requires |busy| == SLOTS
  {
    match r
    case None => forall p: Index :: busy[p] != want
    case Some(p) => busy[p] == want && forall q: Index :: busy[q] == want ==> Distance(start, p) <= Distance(start, q)
  }

  /** A scan fails only if no slot has the status, and otherwise returns the cyclically nearest one. */
  lemma {:induction false} ScanIsNearest(busy: seq<bool>, want: bool, start: Index, k: nat)
    requires |busy| == SLOTS && k <= SLOTS
    requires forall q: Index :: Distance(start, q) < k ==> busy[q] != want
    ensures IsNearest(busy, want, start, Scan(busy, want, start, k))
    decreases |busy| - k
  {
    if k != SLOTS && busy[At(start, k)] != want {
      ScanIsNearest(busy, want, start, k + 1);
    }
  }

  datatype Call = GetFree | GetBusy | Recycle(pos: Index)

  datatype Event =
    | Allocated(slot: Index) | Full
    | Released(slot: Index) | Empty
    | Recycled(slot: Index) | NothingRecycled

  function DoGetFree(s: State): (State, Event)
    requires s.Valid()
  {
    match Scan(s.busy, false, s.nextFree, 0)
    case None => (s, Full)
    case Some(p) => (State(s.busy[p := true], Next(p), s.nextBusy), Allocated(p))
  }

  function DoGetBusy(s: State): (State, Event)
    requires s.Valid()
  {
    match Scan(s.busy, true, s.nextBusy, 0)
    case None => (s, Empty)
    case Some(p) => (State(s.busy[p := false], s.nextFree, Next(p)), Released(p))
  }

  /** Position 0 is never recycled. */
  function DoRecycle(s: State, pos: Index): (State, Event)
    requires s.Valid()
  {
    if pos == 0 then (s, NothingRecycled)
    else (s.(busy := s.busy[pos := false]), if s.busy[pos] then Recycled(pos) else NothingRecycled)
  }

  function Do(s: State, c: Call): (r: (State, Event))
    requires s.Valid()
    ensures r.0.Valid()
  {
    match c
    case GetFree => DoGetFree(s)
    case GetBusy => DoGetBusy(s)
    case Recycle(pos) => DoRecycle(s, pos)
  }

  /** The final state of a run, and the event of each call. */
  function Run(s: State, calls: seq<Call>): (r: (State, seq<Event>))
    requires s.Valid()
    ensures r.0.Valid() && |r.1| == |calls|
    decreases |calls|
  {
    if calls == [] then (s, [])
    else
      var (s1, e) := Do(s, calls[0]);
      var (s2, log) := Run(s1, calls[1..]);
      (s2, [e] + log)
  }

  function Initial(): (s: State)
    ensures s.Valid()
  {
    State(seq(SLOTS, _ => false), 0, 0)
  }

  // ------------------------------------------------------------ recycling

  /** Recycling any slot but the first frees it, and changes nothing else; recycling the first does nothing. */
  lemma RecycleFrees(s: State, pos: Index)
    requires s.Valid()
    ensures var (s', e) := Do(s, Recycle(pos));
            && s'.nextFree == s.nextFree && s'.nextBusy == s.nextBusy
            && (pos != 0 ==> !s'.busy[pos] && (e == Recycled(pos) <==> s.busy[pos]))
            && (pos == 0 ==> s' == s)
            && (e != Recycled(pos) ==> s' == s && e == NothingRecycled)
            && forall q: Index :: q != pos ==> s'.busy[q] == s.busy[q]
  {
    if !s.busy[pos] { assert s.busy[pos := false] == s.busy; }
  }

  /** With every slot busy nothing can be allocated; once a slot but the first is recycled, it is what is allocated. */
  lemma RecycledIsAllocated(s: State, p: Index)
    requires s.Valid() && (forall q: Index :: s.busy[q]) && p != 0
    ensures Run(s, [GetFree, Recycle(p), GetFree]).1 == [Full, Recycled(p), Allocated(p)]
    ensures Run(s, [GetFree, Recycle(0), GetFree]).1 == [Full, NothingRecycled, Full]
  {
    ScanIsNearest(s.busy, false, s.nextFree, 0);
    assert Do(s, GetFree) == (s, Full);
    RecycleFrees(s, p);
    RecycleFrees(s, 0);
    var t := Do(s, Recycle(p)).0;
    ScanIsNearest(t.busy, false, t.nextFree, 0);
    hide Do, Scan, Run;
    RunOfThree(s, [GetFree, Recycle(p), GetFree]);
    RunOfThree(s, [GetFree, Recycle(0), GetFree]);
    AllocatesFree(t, p);
  }

  lemma AllocatesFree(s: State, p: Index)
    requires s.Valid() && !s.busy[p] && forall q: Index :: q != p ==> s.busy[q]
    ensures Do(s, GetFree).1 == Allocated(p)
  {
    ScanIsNearest(s.busy, false, s.nextFree, 0);
  }

  lemma RunOfThree(s: State, calls: seq<Call>)
    requires s.Valid() && |calls| == 3
    ensures var (s1, e1) := Do(s, calls[0]);
            var (s2, e2) := Do(s1, calls[1]);
            Run(s, calls).1 == [e1, e2, Do(s2, calls[2]).1]
  {
    hide Do;
    var s1 := Do(s, calls[0]).0;
    var s2 := Do(s1, calls[1]).0;
    RunFirst(s, calls);
    RunFirst(s1, calls[1..]);
    RunFirst(s2, calls[1..][1..]);
    hide Run;
    assert calls[1..][1..][1..] == [];
  }

  lemma RunFirst(s: State, calls: seq<Call>)
    requires s.Valid() && calls != []
    ensures var (s', e) := Do(s, calls[0]);
            Run(s, calls).1 == [e] + Run(s', calls[1..]).1
  {
  }

  // --------------------------------------------------- refinement of a FIFO queue

  /** A bounded FIFO queue of slot numbers; new slots are numbered in order, modulo 256. */
  datatype Queue = Queue(items: seq<Index>, serial: nat)

  function QueueDo(q: Queue, c: Call): (Queue, Event)
    requires !c.Recycle?
  {
    if c.GetFree? then
      if |q.items| == SLOTS then (q, Full)
      else (Queue(q.items + [q.serial % SLOTS], q.serial + 1), Allocated(q.serial % SLOTS))
    else if q.items == [] then (q, Empty)
    else (Queue(q.items[1..], q.serial), Released(q.items[0]))
  }

  function QueueRun(q: Queue, calls: seq<Call>): (r: (Queue, seq<Event>))
    requires forall c <- calls :: !c.Recycle?
    ensures |r.1| == |calls|
    decreases |calls|
  {
    if calls == [] then (q, [])
    else
      var (q1, e) := QueueDo(q, calls[0]);
      var (q2, log) := QueueRun(q1, calls[1..]);
      (q2, [e] + log)
  }

  /** The busy slots are the cyclic interval from `nextBusy` to `nextFree`, and the queue lists them in that order. */
  ghost predicate Represents(s: State, q: Queue) {
    && s.Valid() && |q.items| <= SLOTS && |q.items| <= q.serial
    && s.nextFree == q.serial % SLOTS
    && s.nextBusy == (q.serial - |q.items|) % SLOTS
    && (forall i :: 0 <= i < |q.items| ==> q.items[i] == (q.serial - |q.items| + i) % SLOTS)
    && (forall p: Index :: s.busy[p] <==> Distance(s.nextBusy, p) < |q.items|)
  }

  /** A scan that starts on a slot of the wanted status takes it. */
  lemma ScanTakesFirst(busy: seq<bool>, want: bool, start: Index)
    requires |busy| == SLOTS && busy[start] == want
    ensures Scan(busy, want, start, 0) == Some(start)
  {
    assert At(start, 0) == start;
  }

  lemma DistanceFromNext(p: Index, x: Index)
    ensures Distance(Next(p), x) == if x == p then SLOTS - 1 else Distance(p, x) - 1
    ensures Distance(p, x) == 0 <==> p == x
  {
  }

  lemma NextOfRemainder(n: nat)
    ensures Next(n % SLOTS) == (n + 1) % SLOTS
  {
  }

  lemma DistanceOfRemainders(n: nat, k: nat)
    requires k < SLOTS
    ensures Distance(n % SLOTS, (n + k) % SLOTS) == k
  {
    assert At(n % SLOTS, k) == (n + k) % SLOTS;
  }

  lemma GetFreeRefines(s: State, q: Queue)
    requires Represents(s, q)
    ensures |q.items| == SLOTS ==> Do(s, GetFree) == (s, Full)
    ensures |q.items| < SLOTS ==>
              && Do(s, GetFree).1 == Allocated(q.serial % SLOTS)
              && Represents(Do(s, GetFree).0, Queue(q.items + [q.serial % SLOTS], q.serial + 1))
  {
    hide Scan, At, Next, Distance;
    var n, p := q.serial - |q.items|, s.nextFree;
    if |q.items| < SLOTS {
      DistanceOfRemainders(n, |q.items|);
      ScanTakesFirst(s.busy, false, p);
      NextOfRemainder(q.serial);
      var s' := Do(s, GetFree).0;
      forall x: Index ensures s'.busy[x] <==> Distance(s.nextBusy, x) < |q.items| + 1 {
        if Distance(s.nextBusy, x) == |q.items| { SameDistance(s.nextBusy, x, p); }
      }
    } else {
      ScanIsNearest(s.busy, false, p, 0);
    }
  }

  lemma SameDistance(n: Index, x: Index, y: Index)
    requires Distance(n, x) == Distance(n, y)
    ensures x == y
  {
  }

  lemma GetBusyRefines(s: State, q: Queue)
    requires Represents(s, q)
    ensures q.items == [] ==> Do(s, GetBusy) == (s, Empty)
    ensures q.items != [] ==>
              && Do(s, GetBusy).1 == Released(q.items[0])
              && Represents(Do(s, GetBusy).0, Queue(q.items[1..], q.serial))
  {
    hide Scan, At, Next, Distance;
    var n, p := q.serial - |q.items|, s.nextBusy;
    if q.items != [] {
      DistanceFromNext(p, p);
      ScanTakesFirst(s.busy, true, p);
      NextOfRemainder(n);
      assert q.items[0] == (n + 0) % SLOTS == p;
      var s' := Do(s, GetBusy).0;
      forall x: Index ensures s'.busy[x] <==> Distance(s'.nextBusy, x) < |q.items| - 1 {
        DistanceFromNext(p, x);
      }
    } else {
      ScanIsNearest(s.busy, true, p, 0);
    }
  }

  lemma {:induction false} RunRefinesQueue(s: State, q: Queue, calls: seq<Call>)
    requires Represents(s, q)
    requires forall c <- calls :: !c.Recycle?
    ensures Represents(Run(s, calls).0, QueueRun(q, calls).0)
    ensures Run(s, calls).1 == QueueRun(q, calls).1
    decreases |calls|
  {
    if calls != [] {
      GetFreeRefines(s, q);
      GetBusyRefines(s, q);
      RunRefinesQueue(Do(s, calls[0]).0, QueueDo(q, calls[0]).0, calls[1..]);
    }
  }

  /**
  Without recycling, every run from the initial state is a run of a 256-place FIFO queue:
  the same events, and at the end the busy slots are the queue's, as one cyclic interval.
  */
  lemma ManagerIsFifo(calls: seq<Call>)
    requires forall c <- calls :: !c.Recycle?
    ensures Run(Initial(), calls).1 == QueueRun(Queue([], 0), calls).1
    ensures Represents(Run(Initial(), calls).0, QueueRun(Queue([], 0), calls).0)
  {
    RunRefinesQueue(Initial(), Queue([], 0), calls);
  }

  function Allocations(log: seq<Event>): seq<Index> {
    if log == [] then []
    else (if log[0].Allocated? then [log[0].slot] else []) + Allocations(log[1..])
  }

  function Releases(log: seq<Event>): seq<Index> {
    if log == [] then []
    else (if log[0].Released? then [log[0].slot] else []) + Releases(log[1..])
  }

  lemma {:induction false} QueueIsFirstInFirstOut(q: Queue, calls: seq<Call>)
    requires forall c <- calls :: !c.Recycle?
    ensures var log := QueueRun(q, calls).1;
            Releases(log) <= q.items + Allocations(log)
    decreases |calls|
  {
    if calls != [] {
      var log := QueueRun(q, calls).1;
      var (q', e) := QueueDo(q, calls[0]);
      QueueIsFirstInFirstOut(q', calls[1..]);
      assert log[0] == e && log[1..] == QueueRun(q', calls[1..]).1;
      if e.Allocated? {
        assert q.items + Allocations(log) == q'.items + Allocations(log[1..]);
      } else if e.Released? {
        assert q.items + Allocations(log) == [q.items[0]] + (q'.items + Allocations(log[1..]));
      }
    }
  }

  /** The k-th slot handed to the consumer is the k-th slot handed to the producer. */
  lemma KthReleaseIsKthAllocation(calls: seq<Call>)
    requires forall c <- calls :: !c.Recycle?
    ensures var log := Run(Initial(), calls).1; Releases(log) <= Allocations(log)
  {
    ManagerIsFifo(calls);
    QueueIsFirstInFirstOut(Queue([], 0), calls);
    var log := QueueRun(Queue([], 0), calls).1;
    assert [] + Allocations(log) == Allocations(log);
  }

  // ---------------------------------------------------------------- fairness

  /** A release that is not of busy slot `p` brings the scan strictly closer to `p`. */
  lemma ReleaseApproaches(s: State, p: Index)
    requires s.Valid() && s.busy[p]
    ensures var (s', e) := Do(s, GetBusy);
            && e.Released?
            && (e.slot != p ==> s'.busy[p] && Distance(s'.nextBusy, p) < Distance(s.nextBusy, p))
  {
    ScanIsNearest(s.busy, true, s.nextBusy, 0);
  }

  /**
  Fairness of every run: whatever is allocated, and whatever other slots are recycled, a
  busy slot at distance d from the scan is among the first d + 1 released slots.
  */
  lemma {:induction false} BusySlotIsReleased(s: State, p: Index, calls: seq<Call>)
    requires s.Valid() && s.busy[p]
    requires forall c <- calls :: c.Recycle? && c.pos == p ==> p == 0
    requires |Releases(Run(s, calls).1)| > Distance(s.nextBusy, p)
    ensures p in Releases(Run(s, calls).1)[..Distance(s.nextBusy, p) + 1]
    decreases |calls|
  {
    var c := calls[0];
    var (s', e) := Do(s, c);
    var log := Run(s, calls).1;
    var rest := Run(s', calls[1..]).1;
    assert log == [e] + rest && log[1..] == rest;
    var d := Distance(s.nextBusy, p);
    if c.GetBusy? {
      ReleaseApproaches(s, p);
      if e.slot == p {
        assert Releases(log)[0] == p;
      } else {
        var d' := Distance(s'.nextBusy, p);
        BusySlotIsReleased(s', p, calls[1..]);
        assert Releases(log) == [e.slot] + Releases(rest);
        assert Releases(log)[1..d + 1] == Releases(rest)[..d];
        assert Releases(rest)[..d' + 1] <= Releases(rest)[..d];
      }
    } else {
      ScanIsNearest(s.busy, false, s.nextFree, 0);
      assert !e.Released? && s'.busy[p] && s'.nextBusy == s.nextBusy;
      BusySlotIsReleased(s', p, calls[1..]);
      assert Releases(log) == Releases(rest);
    }
  }

  // ---------------------------------------------------------- slot accounting

  predicate Frees(e: Event, p: Index) { e == Released(p) || e == Recycled(p) }

  function TimesAllocated(log: seq<Event>, p: Index): nat {
    if log == [] then 0 else (if log[0] == Allocated(p) then 1 else 0) + TimesAllocated(log[1..], p)
  }

  function TimesFreed(log: seq<Event>, p: Index): nat {
    if log == [] then 0 else (if Frees(log[0], p) then 1 else 0) + TimesFreed(log[1..], p)
  }

  function Ord(b: bool): nat { if b then 1 else 0 }

  lemma CallAccounts(s: State, c: Call, p: Index)
    requires s.Valid()
    ensures var (s', e) := Do(s, c);
            && Ord(s'.busy[p]) + Ord(Frees(e, p)) == Ord(s.busy[p]) + Ord(e == Allocated(p))
            && (e == Allocated(p) ==> !s.busy[p] && s'.busy[p])
  {
    ScanIsNearest(s.busy, false, s.nextFree, 0);
    ScanIsNearest(s.busy, true, s.nextBusy, 0);
  }

  /** In every run a slot's allocations exceed its releases by exactly its change of status. */
  lemma {:induction false} SlotAccounting(s: State, calls: seq<Call>, p: Index)
    requires s.Valid()
    ensures var (s', log) := Run(s, calls);
            Ord(s'.busy[p]) + TimesFreed(log, p) == Ord(s.busy[p]) + TimesAllocated(log, p)
    decreases |calls|
  {
    if calls != [] {
      CallAccounts(s, calls[0], p);
      SlotAccounting(Do(s, calls[0]).0, calls[1..], p);
      var log := Run(s, calls).1;
      assert log[1..] == Run(Do(s, calls[0]).0, calls[1..]).1;
    }
  }

  /** A run is what happens before call `i`, the call, and what happens after it. */
  lemma {:induction false} RunAt(s: State, calls: seq<Call>, i: nat)
    requires s.Valid() && i < |calls|
    ensures var (before, log) := Run(s, calls[..i]);
            var (after, e) := Do(before, calls[i]);
            Run(s, calls).1 == log + ([e] + Run(after, calls[i + 1..]).1)
    decreases i
  {
    if i != 0 {
      var (s1, e1) := Do(s, calls[0]);
      RunAt(s1, calls[1..], i - 1);
      assert calls[..i][0] == calls[0] && calls[..i][1..] == calls[1..][..i - 1];
      assert calls[1..][i - 1] == calls[i] && calls[1..][i..] == calls[i + 1..];
      var (before, log) := Run(s1, calls[1..][..i - 1]);
      assert Run(s, calls[..i]) == (before, [e1] + log);
    }
  }

  /** A busy slot that is allocated again for the first time by call `m` was freed exactly once before. */
  lemma FreedOnceBeforeReallocation(s: State, calls: seq<Call>, p: Index, m: nat)
    requires s.Valid() && s.busy[p] && m < |calls|
    requires var log := Run(s, calls).1;
             log[m] == Allocated(p) && forall k :: 0 <= k < m ==> log[k] != Allocated(p)
    ensures TimesFreed(Run(s, calls).1[..m], p) == 1
  {
    var (before, log) := Run(s, calls[..m]);
    RunAt(s, calls, m);
    assert Run(s, calls).1[..m] == log;
    CallAccounts(before, calls[m], p);
    SlotAccounting(s, calls[..m], p);
    forall k | 0 <= k < m ensures log[k] != Allocated(p) { assert log[k] == Run(s, calls).1[k]; }
    NeverAllocated(log, p);
  }

  /** The log of a run from call `i + 1` on is the log of a run from the state that call leaves. */
  lemma LogAfter(s: State, calls: seq<Call>, i: nat)
    requires s.Valid() && i < |calls|
    ensures var next := Do(Run(s, calls[..i]).0, calls[i]);
            next.1 == Run(s, calls).1[i] && Run(next.0, calls[i + 1..]).1 == Run(s, calls).1[i + 1..]
  {
    hide Do;
    RunAt(s, calls, i);
  }

  /** Between two consecutive allocations of a slot there is exactly one release or recycling of it. */
  lemma OneReleaseBetweenAllocations(s: State, calls: seq<Call>, p: Index, i: nat, j: nat)
    requires s.Valid() && i < j < |calls|
    requires var log := Run(s, calls).1;
             log[i] == log[j] == Allocated(p) && forall k :: i < k < j ==> log[k] != Allocated(p)
    ensures TimesFreed(Run(s, calls).1[i + 1..j], p) == 1
  {
    hide Run, Do;
    var log := Run(s, calls).1;
    var s1 := Run(s, calls[..i]).0;
    var s2 := Do(s1, calls[i]).0;
    LogAfter(s, calls, i);
    AllocatedIsBusy(s1, calls[i], p);
    var later := Run(s2, calls[i + 1..]).1;
    assert forall k :: 0 <= k < j - i - 1 ==> later[k] == log[i + 1 + k];
    FreedOnceBeforeReallocation(s2, calls[i + 1..], p, j - i - 1);
    assert log[i + 1..j] == later[..j - i - 1];
  }

  lemma AllocatedIsBusy(s: State, c: Call, p: Index)
    requires s.Valid() && Do(s, c).1 == Allocated(p)
    ensures Do(s, c).0.busy[p]
  {
    CallAccounts(s, c, p);
  }

  lemma {:induction false} NeverAllocated(log: seq<Event>, p: Index)
    requires forall k :: 0 <= k < |log| ==> log[k] != Allocated(p)
    ensures TimesAllocated(log, p) == 0
  {
    if log != [] { NeverAllocated(log[1..], p); }
  }

  function CountBusy(busy: seq<bool>): nat {
    if busy == [] then 0 else Ord(busy[0]) + CountBusy(busy[1..])
  }

  lemma {:induction false} CountBusyUpdate(busy: seq<bool>, p: nat, b: bool)
    requires p < |busy|
    ensures CountBusy(busy[p := b]) + Ord(busy[p]) == CountBusy(busy) + Ord(b)
    decreases |busy|
  {
    if p != 0 {
      assert busy[p := b][1..] == busy[1..][p - 1 := b];
      CountBusyUpdate(busy[1..], p - 1, b);
    } else {
      assert busy[p := b][1..] == busy[1..];
    }
  }

  function CountAllocated(log: seq<Event>): nat {
    if log == [] then 0 else Ord(log[0].Allocated?) + CountAllocated(log[1..])
  }

  function CountFreed(log: seq<Event>): nat {
    if log == [] then 0 else Ord(log[0].Released? || log[0].Recycled?) + CountFreed(log[1..])
  }

  lemma CallCounts(s: State, c: Call)
    requires s.Valid()
    ensures var (s', e) := Do(s, c);
            CountBusy(s'.busy) + Ord(e.Released? || e.Recycled?) == CountBusy(s.busy) + Ord(e.Allocated?)
  {
    var e := Do(s, c).1;
    ScanIsNearest(s.busy, false, s.nextFree, 0);
    ScanIsNearest(s.busy, true, s.nextBusy, 0);
    if e.Allocated? { CountBusyUpdate(s.busy, e.slot, true); }
    if e.Released? { CountBusyUpdate(s.busy, e.slot, false); }
    if c.Recycle? { CountBusyUpdate(s.busy, c.pos, false); }
  }

  /** In every run the number of busy slots is allocations minus releases. */
  lemma {:induction false} BusyCount(s: State, calls: seq<Call>)
    requires s.Valid()
    ensures var (s', log) := Run(s, calls);
            CountBusy(s'.busy) + CountFreed(log) == CountBusy(s.busy) + CountAllocated(log)
    decreases |calls|
  {
    if calls != [] {
      var s' := Do(s, calls[0]).0;
      CallCounts(s, calls[0]);
      BusyCount(s', calls[1..]);
      assert Run(s, calls).1[1..] == Run(s', calls[1..]).1;
    }
  }

  // ------------------------------------------------------------- copy_buffer

  /** The first busy slot at or after `pos`, without wrapping; 256 if there is none. */
  function FirstBusyAtOrAfter(busy: seq<bool>, pos: nat): (q: nat)
    requires |busy| == SLOTS && pos <= SLOTS
    ensures pos <= q <= SLOTS && (q < SLOTS ==> busy[q])
    ensures forall k :: pos <= k < q ==> !busy[k]
    decreases SLOTS - pos
  {
    if pos == SLOTS || busy[pos] then pos else FirstBusyAtOrAfter(busy, pos + 1)
  }

  ghost predicate NoneBusyBetween(s: State, from: Index, to: Index)
    requires s.Valid()
  {
    forall k: Index :: s.busy[k] ==> Distance(from, k) >= Distance(from, to)
  }

  /**
  `copy_buffer` scans linearly from `pos` for the slot it copies, but releases the cyclically
  first busy slot from `nextBusy`.  It copies the slot it releases if and only if there is a
  busy slot at or after `pos` to copy, and nothing is busy cyclically from `nextBusy` up to
  `pos`, or `pos` lies below `nextBusy` with nothing busy in between.
  */
  lemma CopiesWhatItReleases(s: State, pos: Index)
    requires s.Valid()
    ensures var q, e := FirstBusyAtOrAfter(s.busy, pos), Do(s, GetBusy).1;
            var aligned := NoneBusyBetween(s, s.nextBusy, pos)
                           || (pos < s.nextBusy && forall k :: pos <= k < s.nextBusy ==> !s.busy[k]);
            e.Released? && q == e.slot <==> q < SLOTS && aligned
    ensures Do(s, GetBusy).1.Empty? ==> FirstBusyAtOrAfter(s.busy, pos) == SLOTS
  {
    var q, n := FirstBusyAtOrAfter(s.busy, pos), s.nextBusy;
    ScanIsNearest(s.busy, true, n, 0);
    if q < SLOTS {
      var r := Scan(s.busy, true, n, 0).value;
      assert Distance(n, r) <= Distance(n, q);
      if NoneBusyBetween(s, n, pos) {
        assert Distance(n, r) >= Distance(n, pos);
      }
      if r == q && !NoneBusyBetween(s, n, pos) {
        var k: Index :| s.busy[k] && Distance(n, k) < Distance(n, pos);
        assert Distance(n, q) <= Distance(n, k);
      }
    }
  }

  /** A busy slot below the position, and none above: nothing is copied, and the slot is released all the same. */
  lemma CopyMayReleaseUncopied()
    ensures exists s: State, pos: Index ::
              && s.Valid() && FirstBusyAtOrAfter(s.busy, pos) == SLOTS
              && Do(s, GetBusy).1 == Released(5)
  {
    var busy := seq(SLOTS, i => i == 5);
    var s := State(busy, 6, 190);
    assert FirstBusyAtOrAfter(busy, 200) == SLOTS;
    ScanIsNearest(busy, true, 190, 0);
    assert busy[5];
    assert Do(s, GetBusy).1 == Released(5);
  }

  /** A caller that starts the copy at `nextBusy` with a busy slot ahead is safe; nothing calls it at present. */
  lemma CopyFromNextBusy(s: State)
    requires s.Valid() && FirstBusyAtOrAfter(s.busy, s.nextBusy) < SLOTS
    ensures Do(s, GetBusy).1 == Released(FirstBusyAtOrAfter(s.busy, s.nextBusy))
  {
    assert Distance(s.nextBusy, s.nextBusy) == 0;
    CopiesWhatItReleases(s, s.nextBusy);
  }

  /** Otherwise the copied slot need not be the released one: slots 1 and 3 busy, copy from 2. */
  lemma CopyMayMissTheReleasedSlot()
    ensures exists s: State, pos: Index ::
              && s.Valid() && FirstBusyAtOrAfter(s.busy, pos) == 3
              && Do(s, GetBusy).1 == Released(1)
  {
    var busy := seq(SLOTS, i => i == 1 || i == 3);
    var s := State(busy, 4, 1);
    assert FirstBusyAtOrAfter(busy, 2) == 3;
    assert Do(s, GetBusy).1 == Released(1);
  }

  // -------------------------------------------------------------- the manager

  datatype NodeBuffer<T> = NodeBuffer(busy: bool, node: T)

  class Manager<T(0)> {
    var nextFreeIndex: Index
    var nextBusyIndex: Index
    const buffer: array<NodeBuffer<T>>

    ghost predicate Valid()
      reads this, buffer
    {
      buffer.Length == SLOTS
    }

    /** The statuses and indices; the nodes themselves are written by the slot's owner. */
    ghost function Abstract(): (s: State)
      requires Valid()
      reads this, buffer
      ensures s.Valid()
    {
      State(seq(SLOTS, i requires 0 <= i < SLOTS reads this, buffer requires Valid() => buffer[i].busy),
            nextFreeIndex, nextBusyIndex)
    }

    constructor (b: array<NodeBuffer<T>>)
      requires b.Length == SLOTS
      ensures Valid() && buffer == b
    {
      buffer := b;
      nextFreeIndex, nextBusyIndex := 0, 0;
    }

    method Init()
      requires Valid()
      modifies this, buffer
      ensures Valid() && Abstract() == Initial()
    {
      for i := 0 to SLOTS
        invariant forall k :: 0 <= k < i ==> !buffer[k].busy
      {
        buffer[i] := buffer[i].(busy := false);
      }
      nextFreeIndex := 0;
      nextBusyIndex := 0;
    }

    method GetFreeNode() returns (e: Event)
      requires Valid()
      modifies this, buffer
      ensures Valid() && (Abstract(), e) == Do(old(Abstract()), GetFree)
      ensures forall i: Index :: buffer[i].node == old(buffer[i].node)
    {
      var start := nextFreeIndex;
      var current := start;
      ghost var k := 0;
      while true
        invariant k < SLOTS && current == At(start, k)
        invariant Scan(old(Abstract()).busy, false, start, k) == Scan(old(Abstract()).busy, false, start, 0)
        decreases SLOTS - k
      {
        if !buffer[current].busy {
          buffer[current] := buffer[current].(busy := true);
          nextFreeIndex := Next(current);
          assert Abstract().busy == old(Abstract()).busy[current := true];
          return Allocated(current);
        }
        current := Next(current);
        k := k + 1;
        if current == start {
          return Full;
        }
      }
    }

    method GetBusyNode() returns (e: Event)
      requires Valid()
      modifies this, buffer
      ensures Valid() && (Abstract(), e) == Do(old(Abstract()), GetBusy)
      ensures forall i: Index :: buffer[i].node == old(buffer[i].node)
    {
      var start := nextBusyIndex;
      var current := start;
      ghost var k := 0;
      while true
        invariant k < SLOTS && current == At(start, k)
        invariant Scan(old(Abstract()).busy, true, start, k) == Scan(old(Abstract()).busy, true, start, 0)
        decreases SLOTS - k
      {
        if buffer[current].busy {
          buffer[current] := buffer[current].(busy := false);
          nextBusyIndex := Next(current);
          assert Abstract().busy == old(Abstract()).busy[current := false];
          return Released(current);
        }
        current := Next(current);
        k := k + 1;
        if current == start {
          return Empty;
        }
      }
    }

    method RecycleNode(pos: Index)
      requires Valid()
      modifies buffer
      ensures Valid() && Abstract() == Do(old(Abstract()), Recycle(pos)).0
      ensures pos != 0 ==> !buffer[pos].busy
      ensures forall i: Index :: i != pos || pos == 0 ==> buffer[i].busy == old(buffer[i].busy)
      ensures forall i: Index :: buffer[i].node == old(buffer[i].node)
    {
      if pos != 0 {
        buffer[pos] := buffer[pos].(busy := false);
        assert Abstract().busy == old(Abstract()).busy[pos := false];
      }
    }

    method CountNode() returns (count: nat)
      requires Valid()
      ensures count == CountBusy(Abstract().busy)
    {
      count := 0;
      ghost var busy := Abstract().busy;
      for i := 0 to SLOTS
        invariant count + CountBusy(busy[i..]) == CountBusy(busy)
      {
        assert busy[i..][0] == buffer[i].busy && busy[i..][1..] == busy[i + 1..];
        if buffer[i].busy { count := count + 1; }
      }
    }

    /** Sequential: nothing else runs between the scan and the release. */
    method CopyBuffer(pos: Index) returns (output: Option<T>, newPos: Index, e: Event)
      requires Valid()
      modifies this, buffer
      ensures Valid() && (Abstract(), e) == Do(old(Abstract()), GetBusy)
      ensures var q := FirstBusyAtOrAfter(old(Abstract()).busy, pos);
              && output == (if q < SLOTS then Some(old(buffer[q].node)) else None)
              && newPos == (if e.Released? then e.slot else (q + 1) % SLOTS)
    {
      output := None;
      var p: nat := pos;
      ghost var busy := Abstract().busy;
      while p < SLOTS
        invariant p <= SLOTS && FirstBusyAtOrAfter(busy, p) == FirstBusyAtOrAfter(busy, pos)
        invariant output == None
      {
        if buffer[p].busy {
          output := Some(buffer[p].node);
          break;
        }
        p := p + 1;
      }
      newPos := (p + 1) % SLOTS;
      e := GetBusyNode();
      if e.Released? { newPos := e.slot; }
    }
  }
}
