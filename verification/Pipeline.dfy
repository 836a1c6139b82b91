/**
From what arrives at the ring's writer to a session's output: reception, ring protocol, worker
and session together, and the ways in which the chain can lose or repeat messages.
*/
module Pipeline {
  import opened CircleBuffer
  import opened CircleBufferWorker
  import opened SessionPool
  import Reception
  import SessionScheduler

  // -------------------------------------------------------------- the writer's steps

  /** What the publish loop does to the ring, as steps of the protocol. */
  function WriterSteps<T>(items: seq<T>): (steps: seq<Step<T>>)
    ensures |steps| == 4 * |items|
    decreases |items|
  {
    if |items| == 0 then [] else WriterSteps(items[..|items| - 1]) + [Begin, Copy(items[|items| - 1]), Move, Wrap]
  }

  /** The cells of the ring show what the slots of the worker's ring hold, where anything was written. */
  ghost predicate Agrees<T>(cells: seq<Cell<T>>, slots: seq<T>) {
    |cells| == |slots| && forall p :: 0 <= p < |cells| && cells[p].Message? ==> slots[p] == cells[p].body
  }

  /** One message through the protocol: the slot under the cursor, and the cursor one position on. */
  lemma OneMessage<T>(s: System<T>, x: T)
    requires s.Valid() && s.writer == Idle
    ensures var t := Do(Do(Do(Do(s, Begin), Copy(x)), Move), Wrap);
            t == s.(slots := s.slots[s.cursor := Message(|s.log|, x)], cursor := Succ(s.size, s.cursor),
                    log := s.log + [x])
  {
  }

  lemma RunFour<T>(size: nat, steps: seq<Step<T>>, a: Step<T>, b: Step<T>, c: Step<T>, d: Step<T>)
    requires size >= 2
    ensures Run(size, steps + [a, b, c, d]) == Do(Do(Do(Do(Run(size, steps), a), b), c), d)
  {
    hide Do, Run;
    RunTwo(size, steps, a, b);
    RunTwo(size, steps + [a, b], c, d);
    assert steps + [a, b] + [c, d] == steps + [a, b, c, d];
  }

  /**
  Publishing items through the protocol appends them to the log, leaves the readers alone, and
  leaves the ring and the cursor as the publish loop does, whatever happened before.
  */
  lemma {:induction false} BatchExtendsLog<T>(size: nat, steps: seq<Step<T>>, items: seq<T>, slots: seq<T>)
    requires size >= 2 && Run(size, steps).writer == Idle && Agrees(Run(size, steps).slots, slots)
    ensures var s, t := Run(size, steps), Run(size, steps + WriterSteps(items));
            var (slots', cursor') := Publish(size, slots, s.cursor, items);
            && t.writer == Idle && t.log == s.log + items && t.readers == s.readers
            && t.cursor == cursor' && Agrees(t.slots, slots')
    decreases |items|
  {
    var s := Run(size, steps);
    if items == [] {
      assert steps + WriterSteps(items) == steps;
    } else {
      hide Run, Do;
      var front, x := items[..|items| - 1], items[|items| - 1];
      assert items == front + [x];
      BatchExtendsLog(size, steps, front, slots);
      var before := steps + WriterSteps(front);
      assert steps + WriterSteps(items) == before + [Begin, Copy(x), Move, Wrap];
      RunFour(size, before, Begin, Copy(x), Move, Wrap);
      OneMessage(Run(size, before), x);
      PublishSnoc(size, slots, s.cursor, front, x);
    }
  }

  lemma {:induction false} WriterStepsConcat<T>(a: seq<T>, b: seq<T>)
    ensures WriterSteps(a + b) == WriterSteps(a) + WriterSteps(b)
    decreases |b|
  {
    if b == [] {
      assert a + b == a;
    } else {
      var front := b[..|b| - 1];
      WriterStepsConcat(a, front);
      assert (a + b)[..|a + b| - 1] == a + front;
    }
  }

  lemma NothingAgrees<T>(size: nat, slots: seq<T>)
    requires size >= 2 && |slots| == size
    ensures var s := Run<T>(size, []); s.writer == Idle && s.cursor == 0 && s.log == [] && Agrees(s.slots, slots)
  {
  }

  /** A whole run of the worker's passes is a run of the protocol's writer: same ring, same cursor. */
  lemma {:induction false} PassesAreSteps<R, T>(size: nat, slots: seq<T>, turns: seq<Turn<R, T>>)
    requires size >= 2 && |slots| == size
    ensures var h := RunPasses(size, slots, turns);
            var s := Run(size, WriterSteps(h.published));
            s.writer == Idle && s.log == h.published && s.cursor == h.worker.cursor && Agrees(s.slots, h.worker.slots)
    decreases |turns|
  {
    hide Run, Agrees, Publish;
    if |turns| == 0 {
      NothingAgrees(size, slots);
    } else {
      var front, t := turns[..|turns| - 1], turns[|turns| - 1];
      PassesAreSteps(size, slots, front);
      var h := RunPasses(size, slots, front);
      var w := h.worker.(fifo := h.worker.fifo + t.arrivals);
      if |w.fifo| != 0 {
        var batch := w.batch + w.fifo[..Drained(w)];
        BatchExtendsLog(size, WriterSteps(h.published), ReadAll(t.mem, batch), h.worker.slots);
        WriterStepsConcat(h.published, ReadAll(t.mem, batch));
      }
    }
  }

  // -------------------------------------------------------------- readers in between

  /** The steps of the writer. */
  predicate OfWriter<T>(step: Step<T>) { step.Begin? || step.Copy? || step.Move? || step.Wrap? }

  function WriterOnly<T>(steps: seq<Step<T>>): (w: seq<Step<T>>)
    decreases |steps|
  {
    if |steps| == 0 then []
    else
      var last := steps[|steps| - 1];
      WriterOnly(steps[..|steps| - 1]) + if OfWriter(last) then [last] else []
  }

  /** The same but for the readers. */
  ghost predicate SameRing<T>(s: System<T>, t: System<T>) { s == t.(readers := s.readers) }

  lemma StepOnSameRing<T>(s: System<T>, t: System<T>, step: Step<T>)
    requires s.Valid() && t.Valid() && SameRing(s, t)
    ensures if OfWriter(step) then SameRing(Do(s, step), Do(t, step)) else SameRing(Do(s, step), t)
  {
  }

  /** The readers do not disturb the writer. */
  lemma {:induction false} WriterAlone<T>(size: nat, steps: seq<Step<T>>)
    requires size >= 2
    ensures SameRing(Run(size, steps), Run(size, WriterOnly(steps)))
    decreases |steps|
  {
    if |steps| != 0 {
      hide Do, SameRing, OfWriter;
      var front, last := steps[..|steps| - 1], steps[|steps| - 1];
      WriterAlone(size, front);
      var w := WriterOnly(front);
      StepOnSameRing(Run(size, front), Run(size, w), last);
      if OfWriter(last) {
        RunOne(size, w, last);
      } else {
        assert w + [] == w;
      }
    }
  }

  /** In the middle of publishing, the log is a part of what is published. */
  lemma {:induction false} LogOfPart<T>(size: nat, items: seq<T>, n: nat)
    requires size >= 2 && n <= 4 * |items|
    ensures Run(size, WriterSteps(items)[..n]).log <= items
    decreases |items|
  {
    if |items| == 0 {
      assert WriterSteps(items)[..n] == [];
    } else {
      var front, x := items[..|items| - 1], items[|items| - 1];
      var w := WriterSteps(front);
      if n <= |w| {
        LogOfPart(size, front, n);
        assert WriterSteps(items)[..n] == w[..n];
      } else {
        LogOfPart(size, front, |w|);
        assert w[..|w|] == w && items == front + [x];
        WholeLog(size, front);
        LogOfLast(size, w, x, n - |w|);
        assert WriterSteps(items)[..n] == w + [Begin, Copy(x), Move, Wrap][..n - |w|];
      }
    }
  }

  lemma WholeLog<T>(size: nat, items: seq<T>)
    requires size >= 2
    ensures var s := Run(size, WriterSteps(items)); s.writer == Idle && s.log == items
    decreases |items|
  {
    if |items| == 0 {
      assert WriterSteps(items) == [];
    } else {
      hide Run, Do;
      var front, x := items[..|items| - 1], items[|items| - 1];
      WholeLog(size, front);
      RunFour(size, WriterSteps(front), Begin, Copy(x), Move, Wrap);
      OneMessage(Run(size, WriterSteps(front)), x);
      assert items == front + [x];
    }
  }

  lemma LogOfLast<T>(size: nat, w: seq<Step<T>>, x: T, n: nat)
    requires size >= 2 && 1 <= n <= 4 && Run(size, w).writer == Idle
    ensures var s, t := Run(size, w), Run(size, w + [Begin, Copy(x), Move, Wrap][..n]);
            t.log == if n == 1 then s.log else s.log + [x]
  {
    var last := [Begin, Copy(x), Move, Wrap];
    if n == 1 {
      assert last[..1] == [Begin];
      RunOne(size, w, Begin);
    } else if n == 2 {
      assert last[..2] == [Begin, Copy(x)];
      RunTwo(size, w, Begin, Copy(x));
    } else if n == 3 {
      assert w + last[..3] == w + [Begin, Copy(x)] + [Move];
      RunFilled(size, w, x);
      FilledIdle(Run(size, w), x);
      hide Filled;
    } else {
      assert last[..4] == last;
      RunFour(size, w, Begin, Copy(x), Move, Wrap);
      hide Run;
      OneMessage(Run(size, w), x);
    }
  }

  /** At every point of an interleaved run in which the writer makes the worker's passes. */
  lemma LogIsPublished<R, T>(size: nat, slots: seq<T>, turns: seq<Turn<R, T>>, steps: seq<Step<T>>)
    requires size >= 2 && |slots| == size
    requires WriterOnly(steps) <= WriterSteps(RunPasses(size, slots, turns).published)
    ensures Run(size, steps).log <= RunPasses(size, slots, turns).published
  {
    hide Run, RunPasses, WriterOnly, WriterSteps;
    var items := RunPasses(size, slots, turns).published;
    WriterAlone(size, steps);
    assert WriterOnly(steps) == WriterSteps(items)[..|WriterOnly(steps)|];
    LogOfPart(size, items, |WriterOnly(steps)|);
  }

  // -------------------------------------------------------------- end to end

  /** The session has looked at what its reader saw, and nothing interfered with a deadline. */
  ghost predicate Follows(r: Reader<Node>, owner: Owner, limit: nat, work: seq<SessionScheduler.Step>)
    requires limit > 0 && forall k :: 0 <= k < |r.looks| ==> r.looks[k].cell.Message?
  {
    && SessionScheduler.Run(owner, limit, work).taken == Bodies(r.Seen())
    && SessionScheduler.Undisturbed(owner, limit, work)
  }

  /** Such a run of the session exists for whatever its reader saw. */
  lemma SessionCanFollow(r: Reader<Node>, owner: Owner, limit: nat, max: nat) returns (work: seq<SessionScheduler.Step>)
    requires limit > 0 && (forall k :: 0 <= k < |r.looks| ==> r.looks[k].cell.Message?)
    requires SizesAtMost(Bodies(r.Seen()), max)
    ensures Follows(r, owner, limit, work) && SessionScheduler.AtMost(work, max)
  {
    work := SessionScheduler.RunAlone(owner, limit, max, Bodies(r.Seen()));
  }

  /**
  In every interleaved run of the ring, for a timely reader and every undisturbed run of its
  session's worker with deadlines in between: what has been sent and what is still to be is what
  the session selects of the messages from the reader's start on, in order, each once.
  */
  lemma TimelySessionConserves(size: nat, steps: seq<Step<Node>>, i: nat, source: seq<Node>,
                               owner: Owner, limit: nat, max: nat, work: seq<SessionScheduler.Step>)
    requires size >= 2 && i < |Run(size, steps).readers| && Run(size, steps).log <= source
    requires Timely(size, Run(size, steps).readers[i])
    requires 0 < limit && limit - 1 + max <= 0xFFFF && SessionScheduler.AtMost(work, max)
    requires SeesAll(Run(size, steps).log, Run(size, steps).readers[i]) ==>
               Follows(Run(size, steps).readers[i], owner, limit, work)
    ensures var r, s := Run(size, steps).readers[i], SessionScheduler.Run(owner, limit, work);
            && r.start + |r.looks| <= |source|
            && SessionScheduler.Delivered(s) == Accepted(owner, source[r.start..r.start + |r.looks|])
  {
    hide Run, Timely, SessionScheduler.Run, SessionScheduler.Undisturbed, SessionScheduler.Delivered, Accepted;
    TimelyReaderSeesAll(size, steps, i);
    SessionScheduler.UndisturbedConserves(owner, limit, max, work);
    var log, r := Run(size, steps).log, Run(size, steps).readers[i];
    assert log[r.start..r.start + |r.looks|] == source[r.start..r.start + |r.looks|];
  }

  /** The same from what arrives in the FIFO: the source is what the worker's passes publish. */
  lemma ArrivalsToOutput<R>(size: nat, slots: seq<Node>, turns: seq<Turn<R, Node>>, steps: seq<Step<Node>>, i: nat,
                            owner: Owner, limit: nat, max: nat, work: seq<SessionScheduler.Step>)
    requires size >= 2 && |slots| == size && i < |Run(size, steps).readers|
    requires WriterOnly(steps) <= WriterSteps(RunPasses(size, slots, turns).published)
    requires Timely(size, Run(size, steps).readers[i])
    requires 0 < limit && limit - 1 + max <= 0xFFFF && SessionScheduler.AtMost(work, max)
    requires SeesAll(Run(size, steps).log, Run(size, steps).readers[i]) ==>
               Follows(Run(size, steps).readers[i], owner, limit, work)
    ensures var r, s := Run(size, steps).readers[i], SessionScheduler.Run(owner, limit, work);
            var published := RunPasses(size, slots, turns).published;
            && r.start + |r.looks| <= |published|
            && SessionScheduler.Delivered(s) == Accepted(owner, published[r.start..r.start + |r.looks|])
  {
    hide Run, RunPasses, WriterOnly, WriterSteps, Timely, SeesAll, Follows, SessionScheduler.Run, Accepted;
    hide SessionScheduler.Delivered;
    LogIsPublished(size, slots, turns, steps);
    TimelySessionConserves(size, steps, i, RunPasses(size, slots, turns).published, owner, limit, max, work);
  }

  /** What the copy that was meant takes from where a cell leads. */
  function MemoryOf<T>(c: Reception.Connection<T>, blank: T): (mem: Reception.LinkIndex -> T)
    requires c.Sized()
  {
    (link: Reception.LinkIndex) =>
      match Reception.Lead(c, link) { case Unwritten => blank case Message(_, body) => body }
  }

  /**
  The worker as it is written publishes what was received, if that was its first batch and no more
  than a cell's window: 256 datagrams, or one message of a stream.
  */
  lemma FirstBatchPublishesReceived<T>(size: nat, slots: seq<T>, turns: seq<Turn<Reception.LinkIndex, T>>, blank: T,
                                       fd: int, actions: seq<Reception.Action<T>>)
    requires size >= 2 && |slots| == size && OneBatch(turns)
    requires forall a <- actions :: a.Receive?
    requires var c := Reception.Actions(fd, actions);
             && |c.received| <= Reception.Window(fd) && Arrived(turns) == c.fifo
             && StableMemory(turns, MemoryOf(c, blank))
    ensures RunPasses(size, slots, turns).published == Reception.Actions(fd, actions).received
  {
    hide RunPasses, Arrived, OneBatch, StableMemory, Reception.Actions, Reception.Lead;
    var c := Reception.Actions(fd, actions);
    var mem := MemoryOf(c, blank);
    Reception.FewStayIntact(fd, actions);
    Reception.AllQueued(fd, actions);
    OneBatchPublishesArrived(size, slots, turns, mem);
    PublishedOnceIff(size, slots, turns);
    BatchAccumulates(size, slots, turns);
    forall j | 0 <= j < |c.received| ensures mem(c.fifo[j]) == c.received[j] {
      Reception.CellLeadsToMessageIff(fd, actions, j);
    }
  }

  /** And so its sessions send what was received. */
  lemma FirstBatchToOutput(size: nat, slots: seq<Node>, turns: seq<Turn<Reception.LinkIndex, Node>>, blank: Node,
                           fd: int, actions: seq<Reception.Action<Node>>, steps: seq<Step<Node>>, i: nat,
                           owner: Owner, limit: nat, max: nat, work: seq<SessionScheduler.Step>)
    requires size >= 2 && |slots| == size && OneBatch(turns) && forall a <- actions :: a.Receive?
    requires var c := Reception.Actions(fd, actions);
             && |c.received| <= Reception.Window(fd) && Arrived(turns) == c.fifo
             && StableMemory(turns, MemoryOf(c, blank))
    requires WriterOnly(steps) <= WriterSteps(RunPasses(size, slots, turns).published)
    requires i < |Run(size, steps).readers| && Timely(size, Run(size, steps).readers[i])
    requires 0 < limit && limit - 1 + max <= 0xFFFF && SessionScheduler.AtMost(work, max)
    requires SeesAll(Run(size, steps).log, Run(size, steps).readers[i]) ==>
               Follows(Run(size, steps).readers[i], owner, limit, work)
    ensures var r, s := Run(size, steps).readers[i], SessionScheduler.Run(owner, limit, work);
            var received := Reception.Actions(fd, actions).received;
            && r.start + |r.looks| <= |received|
            && SessionScheduler.Delivered(s) == Accepted(owner, received[r.start..r.start + |r.looks|])
  {
    hide *;
    FirstBatchPublishesReceived(size, slots, turns, blank, fd, actions);
    ArrivalsToOutput(size, slots, turns, steps, i, owner, limit, max, work);
  }

  /**
  With a writer that empties its batch after publishing it, as was meant, the same holds for any
  number of messages that are read in time.
  */
  lemma ReceivedToOutput(size: nat, fd: int, actions: seq<Reception.Action<Node>>, steps: seq<Step<Node>>, i: nat,
                         owner: Owner, limit: nat, max: nat, work: seq<SessionScheduler.Step>)
    requires var c := Reception.Actions(fd, actions);
             && (forall j :: 0 <= j < |c.readAt| ==> c.readAt[j] <= j + Reception.Window(fd))
             && ((forall j :: 0 <= j < |c.published| ==> c.published[j].Message?) ==>
                   size >= 2 && WriterOnly(steps) <= WriterSteps(Bodies(c.published)))
    requires size >= 2 && i < |Run(size, steps).readers| && Timely(size, Run(size, steps).readers[i])
    requires 0 < limit && limit - 1 + max <= 0xFFFF && SessionScheduler.AtMost(work, max)
    requires SeesAll(Run(size, steps).log, Run(size, steps).readers[i]) ==>
               Follows(Run(size, steps).readers[i], owner, limit, work)
    ensures var r, s := Run(size, steps).readers[i], SessionScheduler.Run(owner, limit, work);
            var received := Reception.Actions(fd, actions).received;
            && r.start + |r.looks| <= |received|
            && SessionScheduler.Delivered(s) == Accepted(owner, received[r.start..r.start + |r.looks|])
  {
    hide Run, Reception.Actions, WriterOnly, WriterSteps, Timely, SeesAll, Follows, Reception.Window;
    hide SessionScheduler.Run, SessionScheduler.Delivered, Accepted;
    var c := Reception.Actions(fd, actions);
    Reception.PromptWriterPublishesReceived(fd, actions);
    WriterAlone(size, steps);
    var items := Bodies(c.published);
    assert WriterOnly(steps) == WriterSteps(items)[..|WriterOnly(steps)|];
    LogOfPart(size, items, |WriterOnly(steps)|);
    TimelySessionConserves(size, steps, i, c.received, owner, limit, max, work);
  }

  // -------------------------------------------------------------- a session that is too early

  /**
  A session that looks at its slot before the writer has filled it loses that message: it
  then waits for the cursor to move and goes on to the next slot without looking again.
  */
  lemma EagerSessionMissesMessage<T>(size: nat, x: T)
    requires size >= 3
    ensures var steps := [Join] + [Look(0), Taken(0)] + [Begin, Copy(x)] + [Move] + [Advance(0)];
            var s := Run(size, steps);
            && s.log == [x] && |s.readers| == 1
            && var r := s.readers[0];
               r.start == 0 && r.Position() == 1 && |r.looks| == 1 && r.looks[0] == Sight(Unwritten, false, 0, 0)
  {
    var none: seq<Step<T>> := [];
    var joined := [Join] + [Look(0), Taken(0)];
    EagerSteps(Run<T>(size, none), x);
    hide Run, Do, LookedBy, Filled;
    assert none + joined == joined && none + [Join] + [Look(0), Taken(0)] == joined;
    RunLookedBy(size, none, Join, 0);
    RunFilled(size, joined, x);
    RunOne(size, joined + [Begin, Copy(x)] + [Move], Advance(0));
  }

  lemma EagerSteps<T>(s: System<T>, x: T)
    requires s.Valid() && s.size >= 3 && s.readers == [] && s.log == [] && s.writer == Idle && s.cursor == 0
    requires s.slots[0] == Unwritten
    ensures var t := Do(Filled(LookedBy(Do(s, Join), 0), x), Advance(0));
            && t.log == [x] && |t.readers| == 1
            && var r := t.readers[0];
               r.start == 0 && r.Position() == 1 && |r.looks| == 1 && r.looks[0] == Sight(Unwritten, false, 0, 0)
  {
    var s1 := Do(s, Join);
    assert s1.readers == [Reader(0, false, Reading, 0, [])];
    var s2 := LookedBy(s1, 0);
    assert s2.readers[0].looks[0] == Sight(Unwritten, false, 0, 0);
    LookOfOne(s1);
    FilledIdle(s2, x);
    hide LookedBy, Filled;
    var s3 := Filled(s2, x);
    assert s3.readers == s2.readers && s3.cursor == 1;
  }
}
