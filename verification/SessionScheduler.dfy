/**
A session's pool between its worker, `process_session_node` of `src/session/session_connection.c`,
and the scheduler's deadline, `sched_trigger_snd` of `src/scheduler/dmmr_scheduler.c`, which sends
everything in the pool, empties it and wipes it.

The deadline holds the pool's mutex all the time.  The worker takes it only to remove what it has
sent, so everything else the worker does can come before, between and after the deadline's steps.
*/
module SessionScheduler {
  import opened SessionPool
  import WordMemory

  /** What the worker has just done, with the lines of `session_connection.c`. */
  datatype Phase =
    | Idle                                    // nothing since the last node
    | Stored                                  // 49: put a node behind the others
    | Loaded(read: nat)                        // 50: read the count
    | Counted                                 // 50: and written it back, one higher
    | Summing(k: nat, total: nat, end: nat)   // 33-40: added up k nodes of those before `end`
    | Over                                    // 52: seen that the limit is reached
    | Counting(k: nat, siz: nat, end: nat)    // 54-58: counted k nodes for the batch
    | Ready(batch: nat)                       // 58: counted the batch
    | Sent(batch: nat)                        // 61: and sent it
    | Removing(batch: nat)                    // 63: seen that there are that many nodes
    | Resetting                               // 63: or that there are not
    | Broken                                  // 65: moved a negative number of nodes

  /** How far a deadline has come. */
  datatype Strike = Quiet | Dispatched | Emptied

  /** The array and the count of the pool, what was sent, and the nodes the worker has looked at. */
  datatype Shared = Shared(cells: seq<Node>, count: nat, sent: seq<seq<Node>>, phase: Phase, strike: Strike,
                           taken: seq<Node>) {
    ghost predicate Valid() {
      && count <= |cells|
      && (phase.Stored? ==> count < |cells|)
      && (phase.Loaded? ==> phase.read < |cells|)
      && (phase.Summing? ==> phase.k < phase.end <= |cells| && phase.total < U16)
      && (phase.Over? ==> cells != [])
      && (phase.Counting? ==> phase.k < |cells| && phase.end <= |cells|)
      && (phase.Ready? || phase.Sent? || phase.Removing? ==> phase.batch <= |cells|)
    }
  }

  datatype Own = Take(n: Node) | Proceed
  datatype Step = Worker(own: Own) | Dispatch | Empty | Wipe

  /** What wiping leaves of a node. */
  const ZERO := Node(0, 0, Other(0), NO_ADDR, NO_ADDR6, 0, 0, [])

  /** The worker looks at a node, and if it is its session's, puts it behind those in the pool. */
  function Store(s: Shared, owner: Owner, n: Node): (t: Shared)
    requires s.Valid() && s.phase.Idle?
    ensures t.Valid()
  {
    if !Selects(owner, n) then s.(taken := s.taken + [n])
    else s.(cells := s.cells[..s.count] + [n] + if s.count == |s.cells| then [] else s.cells[s.count + 1..],
            phase := Stored, taken := s.taken + [n])
  }

  /** It moves what stands behind its batch to the front, and sorts that. */
  function Remove(s: Shared): (t: Shared)
    requires s.Valid() && s.phase.Removing? && s.phase.batch <= s.count
    ensures t.Valid() && t.strike == s.strike && t.taken == s.taken
  {
    var left := s.count - s.phase.batch;
    s.(phase := Idle, cells := SortByArrival(s.cells[s.phase.batch..s.count]) + s.cells[left..], count := left)
  }

  /** The worker's next step; it has to wait for the mutex when it is to remove its batch. */
  function Next(s: Shared, limit: nat): (t: Shared)
    requires s.Valid() && limit > 0
    ensures t.Valid() && t.strike == s.strike && t.taken == s.taken
  {
    match s.phase
    case Idle => s
    case Stored => s.(phase := Loaded(s.count))
    case Loaded(read) => s.(phase := Counted, count := read + 1)
    case Counted => s.(phase := if s.count == 0 then Idle else Summing(0, 0, s.count))
    case Summing(k, total, end) =>
      var t := (total + s.cells[k].valueSize) % U16;
      s.(phase := if t >= limit then Over else if k + 1 < end then Summing(k + 1, t, end) else Idle)
    case Over => s.(phase := Counting(0, 0, s.count))
    case Counting(k, siz, end) =>
      var t := (siz + s.cells[k].valueSize) % U32;
      s.(phase := if t <= limit && k + 1 < end then Counting(k + 1, t, end) else Ready(k + 1))
    case Ready(batch) => s.(phase := Sent(batch), sent := s.sent + [s.cells[..batch]])
    case Sent(batch) => s.(phase := if batch <= s.count then Removing(batch) else Resetting)
    case Removing(batch) =>
      if s.strike != Quiet then s
      else if s.count < batch then s.(phase := Broken)
      else Remove(s)
    case Resetting => s.(phase := Idle, count := 0)
    case Broken => s
  }

  /** While a deadline holds the mutex the worker cannot remove its batch; it goes on when the deadline has ended. */
  lemma RemovalWaits(s: Shared, limit: nat, j: nat)
    requires s.Valid() && limit > 0 && s.phase.Removing?
    ensures s.strike != Quiet ==> Steps(s, limit, j) == s
    ensures s.strike == Quiet ==> Next(s, limit).phase == if s.phase.batch <= s.count then Idle else Broken
    decreases j
  {
    if j > 0 && s.strike != Quiet { RemovalWaits(s, limit, j - 1); }
  }

  /** In everything else the worker takes no notice of a deadline. */
  lemma WorkerIgnoresDeadline(s: Shared, owner: Owner, limit: nat, own: Own, strike: Strike)
    requires s.Valid() && limit > 0 && !s.phase.Removing?
    ensures Do(s.(strike := strike), owner, limit, Worker(own))
            == Do(s, owner, limit, Worker(own)).(strike := strike)
  {
    hide SortByArrival, Selects;
  }

  /** What a removal leaves in the array is what the move of the remaining nodes leaves, the moved part sorted. */
  lemma RemoveMoves(s: Shared)
    requires s.Valid() && s.phase.Removing? && s.phase.batch <= s.count
    ensures var t, left := Remove(s), s.count - s.phase.batch;
            var moved := WordMemory.Moved(s.cells, s.phase.batch, 0, left);
            && t.count == left && |t.cells| == |s.cells|
            && t.cells[..left] == SortByArrival(moved[..left]) && t.cells[left..] == moved[left..]
  {
    hide SortByArrival;
    var left := s.count - s.phase.batch;
    assert WordMemory.Moved(s.cells, s.phase.batch, 0, left)[..left] == s.cells[s.phase.batch..s.count];
  }

  /** A worker that has sent more nodes than are left empties the pool. */
  lemma TooFewLeft(s: Shared, limit: nat)
    requires s.Valid() && limit > 0 && s.phase.Sent? && s.phase.batch > s.count
    ensures Next(Next(s, limit), limit) == s.(phase := Idle, count := 0)
  {
  }

  function Do(s: Shared, owner: Owner, limit: nat, step: Step): (t: Shared)
    requires s.Valid() && limit > 0
    ensures t.Valid()
  {
    match step
    case Worker(Take(n)) => if s.phase.Idle? then Store(s, owner, n) else s
    case Worker(Proceed) => Next(s, limit)
    case Dispatch =>
      if s.strike != Quiet then s
      else s.(strike := Dispatched, sent := if s.count == 0 then s.sent else s.sent + [s.cells[..s.count]])
    case Empty => if s.strike != Dispatched then s else s.(strike := Emptied, count := 0)
    case Wipe => if s.strike != Emptied then s else s.(strike := Quiet, cells := Copies(ZERO, |s.cells|))
  }

  function Run(owner: Owner, limit: nat, steps: seq<Step>): (s: Shared)
    requires limit > 0
    ensures s.Valid()
    decreases |steps|
  {
    if |steps| == 0 then Shared([], 0, [], Idle, Quiet, [])
    else Do(Run(owner, limit, steps[..|steps| - 1]), owner, limit, steps[|steps| - 1])
  }

  lemma RunSnoc(owner: Owner, limit: nat, steps: seq<Step>, n: nat)
    requires limit > 0 && n < |steps|
    ensures Run(owner, limit, steps[..n + 1]) == Do(Run(owner, limit, steps[..n]), owner, limit, steps[n])
  {
    assert steps[..n + 1][..n] == steps[..n];
  }

  // -------------------------------------------------------------- the worker alone

  /** The worker makes `j` steps. */
  function Steps(s: Shared, limit: nat, j: nat): (t: Shared)
    requires s.Valid() && limit > 0
    ensures t.Valid()
    decreases j
  {
    if j == 0 then s else Steps(Next(s, limit), limit, j - 1)
  }

  lemma {:induction false} StepsAdd(s: Shared, limit: nat, i: nat, j: nat)
    requires s.Valid() && limit > 0
    ensures Steps(Steps(s, limit, i), limit, j) == Steps(s, limit, i + j)
    decreases i
  {
    hide Next;
    if i != 0 { StepsAdd(Next(s, limit), limit, i - 1, j); }
  }

  /** Summing up takes as many steps as nodes are looked at, and finds what `get_session_size` returns. */
  lemma {:induction false} SumsAlone(s: Shared, limit: nat) returns (j: nat)
    requires s.Valid() && limit > 0 && s.phase.Summing? && s.phase.total < limit
    ensures var p := s.phase;
            Steps(s, limit, j) ==
            s.(phase := if Size16(s.cells[..p.end], limit, p.k, p.total) >= limit then Over else Idle)
    decreases s.phase.end - s.phase.k
  {
    var p, t := s.phase, Next(s, limit);
    var nodes := s.cells[..p.end];
    assert nodes[p.k] == s.cells[p.k];
    if t.phase.Summing? {
      assert Size16(nodes, limit, p.k, p.total) == Size16(nodes, limit, p.k + 1, t.phase.total);
      hide Next, Size16;
      j := SumsAlone(t, limit);
    } else {
      assert (Size16(nodes, limit, p.k, p.total) >= limit) == t.phase.Over?;
      hide Next, Size16;
      j := 0;
    }
    StepMore(s, limit, j);
    j := j + 1;
  }

  lemma StepMore(s: Shared, limit: nat, j: nat)
    requires s.Valid() && limit > 0
    ensures Steps(s, limit, j + 1) == Steps(Next(s, limit), limit, j)
    ensures Steps(s, limit, 0) == s
  {
  }

  /** The same for the nodes of the batch. */
  lemma {:induction false} CountsAlone(s: Shared, limit: nat) returns (j: nat)
    requires s.Valid() && limit > 0 && s.phase.Counting? && s.phase.k < s.phase.end
    ensures var p := s.phase;
            Steps(s, limit, j) == s.(phase := Ready(CountFrom(s.cells[..p.end], limit, p.k, p.siz)))
    decreases s.phase.end - s.phase.k
  {
    var p, t := s.phase, Next(s, limit);
    var nodes := s.cells[..p.end];
    assert nodes[p.k] == s.cells[p.k];
    if t.phase.Counting? {
      assert CountFrom(nodes, limit, p.k, p.siz) == CountFrom(nodes, limit, p.k + 1, t.phase.siz);
      hide Next, CountFrom;
      j := CountsAlone(t, limit);
    } else {
      assert t.phase == Ready(CountFrom(nodes, limit, p.k, p.siz));
      hide Next, CountFrom;
      j := 0;
    }
    StepMore(s, limit, j);
    j := j + 1;
  }

  /** The pool as its worker finds it. */
  function PoolOf(s: Shared): Pool
    requires s.Valid()
  {
    Pool(s.cells[..s.count], s.sent)
  }

  lemma SendsAlone(s: Shared, limit: nat)
    requires s.Valid() && limit > 0 && s.phase.Ready? && s.phase.batch <= s.count && s.strike.Quiet?
    ensures var t := Next(Next(Next(s, limit), limit), limit);
            && t.phase.Idle? && t.strike.Quiet? && t.taken == s.taken
            && var nodes, batch := s.cells[..s.count], s.phase.batch;
               PoolOf(t) == Pool(SortByArrival(nodes[batch..]), s.sent + [nodes[..batch]])
  {
    hide SortByArrival;
    var nodes, batch := s.cells[..s.count], s.phase.batch;
    assert nodes[..batch] == s.cells[..batch] && nodes[batch..] == s.cells[batch..s.count];
  }

  lemma FlushesAlone(s: Shared, limit: nat) returns (j: nat)
    requires s.Valid() && limit > 0 && s.phase.Over? && s.strike.Quiet? && s.count > 0
    ensures var t := Steps(s, limit, j);
            t.phase.Idle? && t.strike.Quiet? && t.taken == s.taken && PoolOf(t) == Flush(PoolOf(s), limit, true)
  {
    hide SortByArrival, CountFrom;
    var s1 := Next(s, limit);
    j := CountsAlone(s1, limit);
    var s2 := Steps(s1, limit, j);
    hide Next;
    StepMore(s, limit, j);
    SendsAlone(s2, limit);
    ThreeSteps(s2, limit);
    StepsAdd(s, limit, j + 1, 3);
    j := j + 4;
  }

  lemma ThreeSteps(s: Shared, limit: nat)
    requires s.Valid() && limit > 0
    ensures Steps(s, limit, 3) == Next(Next(Next(s, limit), limit), limit)
  {
    hide Next;
    StepMore(s, limit, 2);
    StepMore(Next(s, limit), limit, 1);
    StepMore(Next(Next(s, limit), limit), limit, 0);
  }

  lemma StoresAlone(s: Shared, owner: Owner, limit: nat, n: Node) returns (t: Shared)
    requires s.Valid() && limit > 0 && s.phase.Idle? && Selects(owner, n)
    ensures t.Valid() && t == Steps(Do(s, owner, limit, Worker(Take(n))), limit, 3)
    ensures t.count == s.count + 1 && t.cells[..t.count] == s.cells[..s.count] + [n]
    ensures t.phase == Summing(0, 0, t.count) && t.sent == s.sent && t.strike == s.strike && t.taken == s.taken + [n]
  {
    var s1 := Do(s, owner, limit, Worker(Take(n)));
    ThreeSteps(s1, limit);
    t := Next(Next(Next(s1, limit), limit), limit);
  }

  /** From the start of the summing to the next node. */
  lemma SettlesAlone(s: Shared, limit: nat) returns (j: nat)
    requires s.Valid() && limit > 0 && s.phase == Summing(0, 0, s.count) && s.strike.Quiet?
    ensures var t, p := Steps(s, limit, j), PoolOf(s);
            && t.phase.Idle? && t.strike.Quiet? && t.taken == s.taken
            && PoolOf(t) == if SessionSize(p.nodes, limit) >= limit then Flush(p, limit, true) else p
  {
    j := SumsAlone(s, limit);
    assert SessionSize(PoolOf(s).nodes, limit) == Size16(s.cells[..s.count], limit, 0, 0);
    hide SessionSize, Size16, Next, Steps, Flush;
    var t := Steps(s, limit, j);
    if t.phase.Over? {
      var i := FlushesAlone(t, limit);
      StepsAdd(s, limit, j, i);
      j := j + i;
    }
  }

  /** Left alone, the worker's steps are one `process_session_node`. */
  lemma AloneIsProcess(s: Shared, owner: Owner, limit: nat, n: Node) returns (j: nat)
    requires s.Valid() && limit > 0 && s.phase.Idle? && s.strike.Quiet?
    ensures var t := Steps(Do(s, owner, limit, Worker(Take(n))), limit, j);
            && t.phase.Idle? && t.strike.Quiet? && t.taken == s.taken + [n]
            && PoolOf(t) == Process(PoolOf(s), owner, n, limit, true)
  {
    hide SessionSize, Selects, Flush;
    var s1 := Do(s, owner, limit, Worker(Take(n)));
    if Selects(owner, n) {
      var s4 := StoresAlone(s, owner, limit, n);
      hide Do, Next, Steps;
      j := SettlesAlone(s4, limit);
      StepsAdd(s1, limit, 3, j);
      j := j + 3;
    } else {
      j := 0;
    }
  }

  function Proceeds(i: nat): (steps: seq<Step>)
    decreases i
  {
    if i == 0 then [] else Proceeds(i - 1) + [Worker(Proceed)]
  }

  lemma RunMore(owner: Owner, limit: nat, steps: seq<Step>, step: Step)
    requires limit > 0
    ensures Run(owner, limit, steps + [step]) == Do(Run(owner, limit, steps), owner, limit, step)
  {
    assert (steps + [step])[..|steps|] == steps;
  }

  lemma {:induction false} RunProceeds(owner: Owner, limit: nat, steps: seq<Step>, i: nat)
    requires limit > 0
    ensures Run(owner, limit, steps + Proceeds(i)) == Steps(Run(owner, limit, steps), limit, i)
    decreases i
  {
    hide Run, Next, Do;
    if i == 0 {
      assert steps + Proceeds(0) == steps;
      StepMore(Run(owner, limit, steps), limit, 0);
    } else {
      RunProceeds(owner, limit, steps, i - 1);
      assert steps + Proceeds(i) == steps + Proceeds(i - 1) + [Worker(Proceed)];
      hide Steps, Proceeds;
      RunMore(owner, limit, steps + Proceeds(i - 1), Worker(Proceed));
      StepsAdd(Run(owner, limit, steps), limit, i - 1, 1);
      StepMore(Steps(Run(owner, limit, steps), limit, i - 1), limit, 0);
      ProceedIsNext(Run(owner, limit, steps + Proceeds(i - 1)), owner, limit);
    }
  }

  lemma ProceedIsNext(s: Shared, owner: Owner, limit: nat)
    requires s.Valid() && limit > 0
    ensures Do(s, owner, limit, Worker(Proceed)) == Next(s, limit)
  {
  }

  /**
  For every list of nodes there is a run in which the worker takes them one after the other and
  nothing else happens; it leaves and sends what `process_session_node` does node by node.
  */
  lemma {:induction false} RunAlone(owner: Owner, limit: nat, max: nat, nodes: seq<Node>) returns (work: seq<Step>)
    requires limit > 0 && SizesAtMost(nodes, max)
    ensures (forall step <- work :: step.Worker?) && AtMost(work, max) && Undisturbed(owner, limit, work)
    ensures var s := Run(owner, limit, work);
            && s.phase.Idle? && s.strike.Quiet? && s.taken == nodes
            && PoolOf(s) == PoolAfter(owner, nodes, limit)
    decreases |nodes|
  {
    if |nodes| == 0 {
      work := [];
    } else {
      hide Run, Process, Undisturbed;
      var front, n := nodes[..|nodes| - 1], nodes[|nodes| - 1];
      var before := RunAlone(owner, limit, max, front);
      work := OneMoreAlone(owner, limit, max, before, n);
      assert front + [n] == nodes;
    }
  }

  lemma OneMoreAlone(owner: Owner, limit: nat, max: nat, before: seq<Step>, n: Node) returns (work: seq<Step>)
    requires limit > 0 && (forall step <- before :: step.Worker?) && AtMost(before, max) && n.valueSize <= max
    requires Run(owner, limit, before).phase.Idle? && Run(owner, limit, before).strike.Quiet?
    ensures (forall step <- work :: step.Worker?) && AtMost(work, max) && Undisturbed(owner, limit, work)
    ensures var s, t := Run(owner, limit, before), Run(owner, limit, work);
            && t.phase.Idle? && t.strike.Quiet? && t.taken == s.taken + [n]
            && PoolOf(t) == Process(PoolOf(s), owner, n, limit, true)
  {
    hide Run, Do, Next, Steps, Process, Undisturbed, Proceeds;
    var j := AloneIsProcess(Run(owner, limit, before), owner, limit, n);
    var taken := before + [Worker(Take(n))];
    work := taken + Proceeds(j);
    RunMore(owner, limit, before, Worker(Take(n)));
    RunProceeds(owner, limit, taken, j);
    ProceedsAreWorkers(j);
    NoDeadlineIsUndisturbed(owner, limit, work);
  }

  lemma {:induction false} ProceedsAreWorkers(i: nat)
    ensures forall step <- Proceeds(i) :: step == Worker(Proceed)
  {
    if i > 0 { ProceedsAreWorkers(i - 1); }
  }

  lemma {:induction false} QuietWithoutDeadline(owner: Owner, limit: nat, steps: seq<Step>)
    requires limit > 0 && forall step <- steps :: step.Worker?
    ensures Run(owner, limit, steps).strike.Quiet?
    decreases |steps|
  {
    if |steps| > 0 { QuietWithoutDeadline(owner, limit, steps[..|steps| - 1]); }
  }

  /** A worker by itself does not disturb anything. */
  lemma NoDeadlineIsUndisturbed(owner: Owner, limit: nat, steps: seq<Step>)
    requires limit > 0 && forall step <- steps :: step.Worker?
    ensures Undisturbed(owner, limit, steps)
  {
    hide Run;
    forall m | 0 <= m < |steps| ensures !Interferes(Run(owner, limit, steps[..m]), owner, limit, steps[m]) {
      QuietWithoutDeadline(owner, limit, steps[..m]);
    }
  }

  lemma UndisturbedMore(owner: Owner, limit: nat, steps: seq<Step>, step: Step)
    requires limit > 0 && Undisturbed(owner, limit, steps)
    requires !Interferes(Run(owner, limit, steps), owner, limit, step)
    ensures Undisturbed(owner, limit, steps + [step])
    ensures Run(owner, limit, steps + [step]) == Do(Run(owner, limit, steps), owner, limit, step)
  {
    hide Run, Interferes, Do;
    var more := steps + [step];
    RunMore(owner, limit, steps, step);
    forall m | 0 <= m < |more| ensures !Interferes(Run(owner, limit, more[..m]), owner, limit, more[m]) {
      assert more[..m] == steps[..m] && (m < |steps| ==> more[m] == steps[m]);
      assert steps[..|steps|] == steps;
    }
  }

  // -------------------------------------------------------------- sizes, whatever the deadlines do

  /** The nodes up to `count` are below the limit, except perhaps for the last. */
  ghost predicate Fills(cells: seq<Node>, count: nat, limit: nat)
    requires count <= |cells|
  {
    count == 0 || BytesTo(cells, count - 1) < limit
  }

  /** What holds at every point of a run of messages of at most `max` bytes. */
  ghost predicate Inv(s: Shared, limit: nat, max: nat)
    requires s.Valid()
  {
    && SizesAtMost(s.cells, max)
    && match s.phase
       case Idle => BytesTo(s.cells, s.count) < limit
       case Stored => BytesTo(s.cells, s.count) < limit
       case Loaded(read) => BytesTo(s.cells, read) < limit
       case Counted => Fills(s.cells, s.count, limit)
       case Summing(k, total, end) =>
         && total < limit
         && (s.count == 0 || (s.count == end && (SizesAtMost(s.cells, 0) || total == BytesTo(s.cells, k))))
         && Fills(s.cells, s.count, limit)
       case Over => Fills(s.cells, s.count, limit)
       case Counting(k, siz, end) =>
         && siz <= limit
         && (s.count == 0 || (k < end == s.count && (SizesAtMost(s.cells, 0) || siz == BytesTo(s.cells, k))))
         && Fills(s.cells, s.count, limit)
       case Ready(batch) => batch > 0 && (s.count == 0 || s.count == batch)
       case Sent(batch) => batch > 0 && (s.count == 0 || s.count == batch)
       case Removing(batch) => batch > 0 && (s.count == 0 || s.count == batch)
       case Resetting => true
       case Broken => true
  }

  predicate TakesAtMost(own: Own, max: nat) { own.Take? ==> own.n.valueSize <= max }

  predicate AtMost(steps: seq<Step>, max: nat) { forall step <- steps :: step.Worker? ==> TakesAtMost(step.own, max) }

  lemma {:induction false} BlankBytes(s: seq<Node>, k: nat)
    requires k <= |s| && SizesAtMost(s, 0)
    ensures BytesTo(s, k) == 0
  {
    if k != 0 { BlankBytes(s, k - 1); }
  }

  lemma StoreKeepsInv(s: Shared, owner: Owner, limit: nat, max: nat, n: Node)
    requires s.Valid() && s.phase.Idle? && Inv(s, limit, max) && n.valueSize <= max
    ensures Inv(Store(s, owner, n), limit, max)
  {
    hide Selects, BytesTo;
    var t := Store(s, owner, n);
    BytesOfPrefix(s.cells[..s.count], s.cells, s.count);
    if t.phase.Stored? { BytesOfPrefix(s.cells[..s.count], t.cells, s.count); }
  }

  /** One more node of a pool that the last one may take over the limit: neither sum wraps. */
  lemma SumsExactly(cells: seq<Node>, count: nat, limit: nat, max: nat, k: nat)
    requires k < count <= |cells| && Fills(cells, count, limit) && SizesAtMost(cells, max)
    requires 0 < limit && limit - 1 + max <= 0xFFFF
    ensures BytesTo(cells, k + 1) == BytesTo(cells, k) + cells[k].valueSize < U16
    ensures k + 1 < count ==> BytesTo(cells, k + 1) < limit
    ensures BytesTo(cells, k + 1) % U16 == BytesTo(cells, k + 1) % U32 == BytesTo(cells, k + 1)
  {
    BytesMonotone(cells, k, count - 1);
    if k + 1 < count { BytesMonotone(cells, k + 1, count - 1); }
  }

  lemma SumKeepsInv(s: Shared, limit: nat, max: nat)
    requires s.Valid() && 0 < limit && limit - 1 + max <= 0xFFFF && Inv(s, limit, max) && s.phase.Summing?
    ensures Inv(Next(s, limit), limit, max)
  {
    if s.count != 0 {
      SumsExactly(s.cells, s.count, limit, max, s.phase.k);
      if SizesAtMost(s.cells, 0) { BlankBytes(s.cells, s.count); }
    }
  }

  lemma CountKeepsInv(s: Shared, limit: nat, max: nat)
    requires s.Valid() && 0 < limit && limit - 1 + max <= 0xFFFF && Inv(s, limit, max) && s.phase.Counting?
    ensures Inv(Next(s, limit), limit, max)
  {
    if s.count != 0 { SumsExactly(s.cells, s.count, limit, max, s.phase.k); }
  }

  lemma NextKeepsInv(s: Shared, limit: nat, max: nat)
    requires s.Valid() && 0 < limit && limit - 1 + max <= 0xFFFF && Inv(s, limit, max)
    ensures Inv(Next(s, limit), limit, max)
  {
    hide SortByArrival;
    if s.phase.Summing? {
      SumKeepsInv(s, limit, max);
    } else if s.phase.Counting? {
      CountKeepsInv(s, limit, max);
    } else if s.phase.Removing? && s.count == s.phase.batch {
      EmptyPool(limit);
      assert s.cells[s.count..s.count] == [];
    }
  }

  lemma EmptyPool(limit: nat)
    ensures SessionSize([], limit) == 0 == Bytes([]) && SortByArrival([]) == []
  {
  }

  lemma WipeKeepsInv(s: Shared, owner: Owner, limit: nat, max: nat)
    requires s.Valid() && 0 < limit && Inv(s, limit, max)
    ensures Inv(Do(s, owner, limit, Wipe), limit, max)
  {
    var t := Do(s, owner, limit, Wipe);
    if s.strike.Emptied? {
      forall k | 0 <= k <= |t.cells| ensures BytesTo(t.cells, k) == 0 { BlankBytes(t.cells, k); }
    }
  }

  /** Every step of worker and deadline keeps it. */
  lemma StepKeepsInv(s: Shared, owner: Owner, limit: nat, max: nat, step: Step)
    requires s.Valid() && 0 < limit && limit - 1 + max <= 0xFFFF && Inv(s, limit, max)
    requires step.Worker? ==> TakesAtMost(step.own, max)
    ensures Inv(Do(s, owner, limit, step), limit, max)
  {
    match step
    case Worker(Take(n)) => if s.phase.Idle? { StoreKeepsInv(s, owner, limit, max, n); }
    case Worker(Proceed) => NextKeepsInv(s, limit, max);
    case Dispatch =>
    case Empty =>
    case Wipe => WipeKeepsInv(s, owner, limit, max);
  }

  lemma {:induction false} RunKeepsInv(owner: Owner, limit: nat, max: nat, steps: seq<Step>)
    requires 0 < limit && limit - 1 + max <= 0xFFFF && AtMost(steps, max)
    ensures Inv(Run(owner, limit, steps), limit, max)
    decreases |steps|
  {
    if |steps| != 0 {
      hide Inv, Do;
      RunKeepsInv(owner, limit, max, steps[..|steps| - 1]);
      StepKeepsInv(Run(owner, limit, steps[..|steps| - 1]), owner, limit, max, steps[|steps| - 1]);
    }
  }

  /** Between nodes the pool is below the limit, whatever the deadlines did and wherever they struck. */
  lemma IdlePoolIsBelowLimit(owner: Owner, limit: nat, max: nat, steps: seq<Step>)
    requires 0 < limit && limit - 1 + max <= 0xFFFF && AtMost(steps, max)
    ensures var s := Run(owner, limit, steps); s.phase.Idle? ==> Bytes(PoolOf(s).nodes) < limit
  {
    RunKeepsInv(owner, limit, max, steps);
    var s := Run(owner, limit, steps);
    BytesOfPrefix(s.cells[..s.count], s.cells, s.count);
  }

  // -------------------------------------------------------------- conservation

  /** Between storing a node and having counted it, and from the test of the size to the end of the removal. */
  predicate Delicate(p: Phase) { !(p.Idle? || p.Counted? || p.Summing? || p.Resetting? || p.Broken?) }

  function Max(a: nat, b: nat): nat { if a >= b then a else b }

  /** How many cells the worker's next steps will take for nodes of the pool. */
  function Reach(s: Shared): nat
    requires s.Valid()
  {
    match s.phase
    case Stored => s.count + 1
    case Loaded(read) => read + 1
    case Over => Max(1, s.count)
    case Counting(k, _, _) => Max(k + 1, s.count)
    case Ready(batch) => Max(batch, s.count)
    case _ => s.count
  }

  /** What is still to be sent: nothing while a deadline empties the pool, and not the batch once it is sent. */
  function Pending(s: Shared): seq<Node>
    requires s.Valid()
  {
    if s.strike != Quiet || s.phase.Resetting? || s.phase.Broken? then []
    else if s.phase.Sent? || s.phase.Removing? then
      if s.phase.batch <= s.count then s.cells[s.phase.batch..s.count] else []
    else s.cells[..Reach(s)]
  }

  function Delivered(s: Shared): seq<Node>
    requires s.Valid()
  {
    Concat(s.sent) + Pending(s)
  }

  /** What has been sent and what is still to be are the accepted nodes, each once and in order. */
  ghost predicate Conserved(s: Shared, owner: Owner)
    requires s.Valid()
  {
    Delivered(s) == Accepted(owner, s.taken)
  }

  /**
  A deadline begins at a delicate point; or the worker stores a node before a deadline has ended;
  or it finds the pool over the limit when a deadline has sent it but not wiped it yet.
  */
  predicate Interferes(s: Shared, owner: Owner, limit: nat, step: Step)
    requires s.Valid() && limit > 0
  {
    match step
    case Dispatch => Delicate(s.phase)
    case Worker(Take(n)) => s.phase.Idle? && s.strike != Quiet && Selects(owner, n)
    case Worker(Proceed) => s.phase.Summing? && s.strike != Quiet && Next(s, limit).phase.Over?
    case _ => false
  }

  /** What holds at every point of a run without interference. */
  ghost predicate Calm(s: Shared)
    requires s.Valid()
  {
    && (Delicate(s.phase) ==> s.strike.Quiet?)
    && (s.strike.Emptied? ==> s.count == 0)
    && match s.phase
       case Loaded(read) => s.count == read
       case Summing(k, total, end) =>
         s.count == end || (s.count == 0 && (SizesAtMost(s.cells, 0) || s.strike.Emptied?))
       case Over => s.count > 0
       case Counting(k, siz, end) => s.count > 0
       case Ready(batch) => s.count == batch
       case Sent(batch) => s.count == batch
       case Removing(batch) => s.count == batch
       case Resetting => false
       case Broken => false
       case _ => true
  }

  lemma NextKeepsCalm(s: Shared, owner: Owner, limit: nat, max: nat)
    requires s.Valid() && 0 < limit && limit - 1 + max <= 0xFFFF && Inv(s, limit, max) && Calm(s)
    requires !Interferes(s, owner, limit, Worker(Proceed))
    ensures Calm(Next(s, limit))
  {
    hide SortByArrival;
    NextKeepsInv(s, limit, max);
  }

  lemma StepKeepsCalm(s: Shared, owner: Owner, limit: nat, max: nat, step: Step)
    requires s.Valid() && 0 < limit && limit - 1 + max <= 0xFFFF && Inv(s, limit, max) && Calm(s)
    requires !Interferes(s, owner, limit, step)
    ensures Calm(Do(s, owner, limit, step))
  {
    hide Selects, Inv;
    match step
    case Worker(Take(n)) =>
    case Worker(Proceed) => NextKeepsCalm(s, owner, limit, max);
    case Dispatch =>
    case Empty =>
    case Wipe =>
  }

  lemma AcceptedSnoc(owner: Owner, taken: seq<Node>, n: Node)
    ensures Accepted(owner, taken + [n]) == Accepted(owner, taken) + if Selects(owner, n) then [n] else []
  {
    assert (taken + [n])[..|taken|] == taken;
  }

  lemma TakeDelivers(s: Shared, owner: Owner, limit: nat, n: Node)
    requires s.Valid() && limit > 0 && s.phase.Idle? && (s.strike.Quiet? || !Selects(owner, n))
    ensures var t := Store(s, owner, n);
            && Delivered(t) == Delivered(s) + (if Selects(owner, n) then [n] else [])
            && Accepted(owner, t.taken) == Accepted(owner, s.taken) + if Selects(owner, n) then [n] else []
  {
    hide Selects, Concat, Accepted;
    AcceptedSnoc(owner, s.taken, n);
    if Selects(owner, n) {
      var t := Store(s, owner, n);
      assert t.cells[..s.count + 1] == s.cells[..s.count] + [n];
      assert Concat(s.sent) + (s.cells[..s.count] + [n]) == Concat(s.sent) + s.cells[..s.count] + [n];
    } else {
      assert Delivered(s) + [] == Delivered(s);
    }
  }

  lemma SendDelivers(s: Shared, limit: nat)
    requires s.Valid() && limit > 0 && s.phase.Ready? && s.strike.Quiet?
    ensures Delivered(Next(s, limit)) == Delivered(s)
  {
    hide Concat;
    var batch := s.phase.batch;
    ConcatSnoc(s.sent, s.cells[..batch]);
    var rest := if batch <= s.count then s.cells[batch..s.count] else [];
    assert s.cells[..batch] + rest == s.cells[..Max(batch, s.count)];
    assert (Concat(s.sent) + s.cells[..batch]) + rest == Concat(s.sent) + (s.cells[..batch] + rest);
  }

  /** Before the sending and after it, what is still to be sent is the same from step to step. */
  lemma PendingStays(s: Shared, owner: Owner, limit: nat, max: nat)
    requires s.Valid() && 0 < limit && limit - 1 + max <= 0xFFFF && Inv(s, limit, max) && Calm(s)
    requires !Interferes(s, owner, limit, Worker(Proceed)) && !s.phase.Ready? && !s.phase.Removing?
    ensures var t := Next(s, limit); t.sent == s.sent && Pending(t) == Pending(s)
  {
    hide Remove;
  }

  /** The batch is all there is, and nothing is left when it is removed. */
  lemma RemovalStays(s: Shared, limit: nat)
    requires s.Valid() && limit > 0 && s.phase.Removing? && s.count == s.phase.batch && s.strike.Quiet?
    ensures var t := Next(s, limit); t.sent == s.sent && Pending(t) == [] == Pending(s)
  {
    EmptyPool(limit);
    assert s.cells[s.count..s.count] == [];
  }

  lemma NextConserves(s: Shared, owner: Owner, limit: nat, max: nat)
    requires s.Valid() && 0 < limit && limit - 1 + max <= 0xFFFF && Inv(s, limit, max) && Calm(s)
    requires Conserved(s, owner) && !Interferes(s, owner, limit, Worker(Proceed))
    ensures Conserved(Next(s, limit), owner)
  {
    hide Next, Pending, Concat, Accepted, Inv;
    if s.phase.Ready? {
      SendDelivers(s, limit);
    } else if s.phase.Removing? {
      RemovalStays(s, limit);
    } else {
      PendingStays(s, owner, limit, max);
    }
  }

  lemma DispatchConserves(s: Shared, owner: Owner, limit: nat)
    requires s.Valid() && limit > 0 && Calm(s) && Conserved(s, owner) && !Delicate(s.phase)
    ensures Conserved(Do(s, owner, limit, Dispatch), owner)
  {
    hide Concat, Accepted;
    if s.strike.Quiet? {
      ConcatSnoc(s.sent, s.cells[..s.count]);
      assert Concat(s.sent) + s.cells[..s.count] + [] == Concat(s.sent) + s.cells[..s.count];
    }
  }

  lemma StepConserves(s: Shared, owner: Owner, limit: nat, max: nat, step: Step)
    requires s.Valid() && 0 < limit && limit - 1 + max <= 0xFFFF && Inv(s, limit, max) && Calm(s)
    requires Conserved(s, owner) && !Interferes(s, owner, limit, step)
    ensures Conserved(Do(s, owner, limit, step), owner)
  {
    hide Selects, Inv, Concat, Accepted, Next;
    match step
    case Worker(Take(n)) => if s.phase.Idle? { TakeDelivers(s, owner, limit, n); }
    case Worker(Proceed) => NextConserves(s, owner, limit, max);
    case Dispatch => DispatchConserves(s, owner, limit);
    case Empty =>
    case Wipe =>
  }

  /** No step of the run interferes. */
  ghost predicate Undisturbed(owner: Owner, limit: nat, steps: seq<Step>)
    requires limit > 0
  {
    forall m :: 0 <= m < |steps| ==> !Interferes(Run(owner, limit, steps[..m]), owner, limit, steps[m])
  }

  lemma UndisturbedFront(owner: Owner, limit: nat, steps: seq<Step>)
    requires limit > 0 && |steps| > 0 && Undisturbed(owner, limit, steps)
    ensures Undisturbed(owner, limit, steps[..|steps| - 1])
  {
    hide Run, Interferes;
    var front := steps[..|steps| - 1];
    forall m | 0 <= m < |front| ensures !Interferes(Run(owner, limit, front[..m]), owner, limit, front[m]) {
      assert front[..m] == steps[..m] && front[m] == steps[m];
    }
  }

  lemma {:induction false} CalmSoFar(owner: Owner, limit: nat, max: nat, steps: seq<Step>)
    requires 0 < limit && limit - 1 + max <= 0xFFFF && AtMost(steps, max)
    requires Undisturbed(owner, limit, steps)
    ensures var s := Run(owner, limit, steps); Inv(s, limit, max) && Calm(s) && Conserved(s, owner)
    decreases |steps|
  {
    RunKeepsInv(owner, limit, max, steps);
    if |steps| != 0 {
      hide Inv, Calm, Conserved, Do, Interferes;
      var front, s := steps[..|steps| - 1], Run(owner, limit, steps[..|steps| - 1]);
      UndisturbedFront(owner, limit, steps);
      CalmSoFar(owner, limit, max, front);
      StepKeepsCalm(s, owner, limit, max, steps[|steps| - 1]);
      StepConserves(s, owner, limit, max, steps[|steps| - 1]);
    }
  }

  /**
  In every run, however finely the steps of worker and deadlines are mixed: as long as no step
  interferes, every accepted node has been sent or is still to be, once and in order.
  */
  lemma UndisturbedConserves(owner: Owner, limit: nat, max: nat, steps: seq<Step>)
    requires 0 < limit && limit - 1 + max <= 0xFFFF && AtMost(steps, max)
    requires Undisturbed(owner, limit, steps)
    ensures Conserved(Run(owner, limit, steps), owner)
  {
    CalmSoFar(owner, limit, max, steps);
  }
}
