/**
Deadlines during which the worker of a session rests: exactly when they do no harm, and the runs
in which they do.
*/
module SessionDeadlines {
  import opened SessionPool
  import opened SessionScheduler

  // -------------------------------------------------------------- deadlines at one point

  /** A turn of the worker, or a deadline during which the worker does nothing. */
  datatype Action = Turn(own: Own) | Deadline

  function Parts(a: Action): seq<Step> {
    match a
    case Turn(own) => [Worker(own)]
    case Deadline => [Dispatch, Empty, Wipe]
  }

  function Expand(actions: seq<Action>): seq<Step>
    decreases |actions|
  {
    if |actions| == 0 then [] else Expand(actions[..|actions| - 1]) + Parts(actions[|actions| - 1])
  }

  function WholeStrike(s: Shared, owner: Owner, limit: nat): (t: Shared)
    requires s.Valid() && limit > 0 && s.strike.Quiet?
    ensures t.Valid()
    ensures t.strike.Quiet? && t.phase == s.phase && t.taken == s.taken
    ensures t.count == 0 && t.cells == Copies(ZERO, |s.cells|)
    ensures t.sent == if s.count == 0 then s.sent else s.sent + [s.cells[..s.count]]
  {
    Do(Do(Do(s, owner, limit, Dispatch), owner, limit, Empty), owner, limit, Wipe)
  }

  function Act(s: Shared, owner: Owner, limit: nat, a: Action): (t: Shared)
    requires s.Valid() && limit > 0 && s.strike.Quiet?
    ensures t.Valid() && t.strike.Quiet?
  {
    match a
    case Turn(own) => Do(s, owner, limit, Worker(own))
    case Deadline => WholeStrike(s, owner, limit)
  }

  function Acts(owner: Owner, limit: nat, actions: seq<Action>): (s: Shared)
    requires limit > 0
    ensures s.Valid() && s.strike.Quiet?
    decreases |actions|
  {
    if |actions| == 0 then Shared([], 0, [], Idle, Quiet, [])
    else Act(Acts(owner, limit, actions[..|actions| - 1]), owner, limit, actions[|actions| - 1])
  }

  lemma ActsSnoc(owner: Owner, limit: nat, actions: seq<Action>, n: nat)
    requires limit > 0 && n < |actions|
    ensures Acts(owner, limit, actions[..n + 1]) == Act(Acts(owner, limit, actions[..n]), owner, limit, actions[n])
  {
    assert actions[..n + 1][..n] == actions[..n];
  }

  lemma RunThree(owner: Owner, limit: nat, steps: seq<Step>, a: Step, b: Step, c: Step)
    requires limit > 0
    ensures Run(owner, limit, steps + [a, b, c])
            == Do(Do(Do(Run(owner, limit, steps), owner, limit, a), owner, limit, b), owner, limit, c)
  {
    hide Do, Run;
    var all, n := steps + [a, b, c], |steps|;
    RunSnoc(owner, limit, all, n);
    RunSnoc(owner, limit, all, n + 1);
    RunSnoc(owner, limit, all, n + 2);
    assert all[..n] == steps && all[..n + 3] == all;
  }

  /** These are runs too: those in which the worker makes no step during a deadline. */
  lemma {:induction false} ActsAreRuns(owner: Owner, limit: nat, actions: seq<Action>)
    requires limit > 0
    ensures Acts(owner, limit, actions) == Run(owner, limit, Expand(actions))
    decreases |actions|
  {
    if |actions| != 0 {
      hide Do;
      var front, a := actions[..|actions| - 1], actions[|actions| - 1];
      ActsAreRuns(owner, limit, front);
      if a.Deadline? {
        RunThree(owner, limit, Expand(front), Dispatch, Empty, Wipe);
      } else {
        assert (Expand(front) + Parts(a))[..|Expand(front)|] == Expand(front);
      }
    }
  }

  lemma ActKeepsCalm(s: Shared, owner: Owner, limit: nat, max: nat, a: Action)
    requires s.Valid() && 0 < limit && limit - 1 + max <= 0xFFFF && (a.Turn? ==> TakesAtMost(a.own, max))
    requires s.strike.Quiet? && Inv(s, limit, max) && Calm(s) && Conserved(s, owner)
    requires a.Deadline? ==> !Delicate(s.phase)
    ensures var t := Act(s, owner, limit, a); Inv(t, limit, max) && Calm(t) && Conserved(t, owner)
  {
    hide Inv, Calm, Conserved, Do;
    match a
    case Turn(own) =>
      StepKeepsInv(s, owner, limit, max, Worker(own));
      StepKeepsCalm(s, owner, limit, max, Worker(own));
      SessionScheduler.StepConserves(s, owner, limit, max, Worker(own));
    case Deadline =>
      PartKeepsCalm(s, owner, limit, max, Dispatch);
      var s1 := Do(s, owner, limit, Dispatch);
      PartKeepsCalm(s1, owner, limit, max, Empty);
      PartKeepsCalm(Do(s1, owner, limit, Empty), owner, limit, max, Wipe);
  }

  lemma PartKeepsCalm(s: Shared, owner: Owner, limit: nat, max: nat, step: Step)
    requires s.Valid() && 0 < limit && limit - 1 + max <= 0xFFFF && !step.Worker?
    requires Inv(s, limit, max) && Calm(s) && Conserved(s, owner)
    requires step.Dispatch? ==> !Delicate(s.phase)
    ensures var t := Do(s, owner, limit, step); Inv(t, limit, max) && Calm(t) && Conserved(t, owner)
  {
    hide Inv, Calm, Conserved, Do;
    StepKeepsInv(s, owner, limit, max, step);
    StepKeepsCalm(s, owner, limit, max, step);
    SessionScheduler.StepConserves(s, owner, limit, max, step);
  }

  // -------------------------------------------------------------- damage

  /** More has been sent or is still to be than was accepted, or a wiped node is among it. */
  ghost predicate Damaged(s: Shared, owner: Owner)
    requires s.Valid()
  {
    |Delivered(s)| > |Accepted(owner, s.taken)| || ZERO in Delivered(s)
  }

  lemma {:induction false} AcceptedIsSelected(owner: Owner, taken: seq<Node>)
    ensures forall n <- Accepted(owner, taken) :: Selects(owner, n)
    decreases |taken|
  {
    if taken != [] { AcceptedIsSelected(owner, taken[..|taken| - 1]); }
  }

  lemma DamagedIsNotConserved(s: Shared, owner: Owner)
    requires s.Valid() && Damaged(s, owner) && !Selects(owner, ZERO)
    ensures !Conserved(s, owner)
  {
    hide Selects, Delivered;
    AcceptedIsSelected(owner, s.taken);
  }

  lemma PendingGrows(s: Shared, limit: nat)
    requires s.Valid() && limit > 0 && s.strike.Quiet? && !s.phase.Ready? && !s.phase.Removing?
    ensures Next(s, limit).sent == s.sent && Pending(s) <= Pending(Next(s, limit))
  {
    hide SortByArrival;
  }

  /** The worker drops nothing that is still to be sent. */
  lemma NextDelivers(s: Shared, limit: nat, x: Node)
    requires s.Valid() && limit > 0 && s.strike.Quiet?
    ensures |Delivered(Next(s, limit))| >= |Delivered(s)|
    ensures x in Delivered(s) ==> x in Delivered(Next(s, limit))
  {
    hide SortByArrival, Concat;
    if s.phase.Ready? {
      SendDelivers(s, limit);
    } else if s.phase.Removing? {
      RemovalDelivers(s, limit, x);
    } else {
      PendingGrows(s, limit);
      hide Pending, Next;
    }
  }

  lemma RemovalDelivers(s: Shared, limit: nat, x: Node)
    requires s.Valid() && limit > 0 && s.strike.Quiet? && s.phase.Removing?
    ensures |Delivered(Next(s, limit))| >= |Delivered(s)|
    ensures x in Delivered(s) ==> x in Delivered(Next(s, limit))
  {
    hide SortByArrival, Concat;
    if s.phase.batch <= s.count {
      var rest := s.cells[s.phase.batch..s.count];
      SortSorts(rest);
      assert Pending(Next(s, limit)) == SortByArrival(rest);
      assert x in rest <==> x in multiset(rest);
    }
  }

  /** Nor does a deadline, and when it strikes between storing and sending it leaves wiped nodes. */
  lemma StrikeDelivers(s: Shared, owner: Owner, limit: nat, x: Node)
    requires s.Valid() && limit > 0 && s.strike.Quiet?
    ensures var t := WholeStrike(s, owner, limit);
            && |Delivered(t)| >= |Delivered(s)|
            && (x in Delivered(s) ==> x in Delivered(t) || ZERO in Delivered(t))
            && (s.phase.Stored? || s.phase.Loaded? || s.phase.Over? || s.phase.Counting? ==> ZERO in Delivered(t))
            && (s.phase.Ready? && s.phase.batch > 0 ==> ZERO in Delivered(t))
            && (s.phase.Sent? || s.phase.Removing? ==> |Delivered(t)| == |Concat(s.sent)| + s.count)
  {
    hide Concat, Do, WholeStrike;
    var t, pool := WholeStrike(s, owner, limit), s.cells[..s.count];
    ConcatSnoc(s.sent, pool);
    assert Concat(t.sent) == Concat(s.sent) + pool;
    if Reach(t) > 0 && !s.phase.Sent? && !s.phase.Removing? && !s.phase.Resetting? && !s.phase.Broken? {
      assert Pending(t)[0] == ZERO;
    }
  }

  lemma ActKeepsDamage(s: Shared, owner: Owner, limit: nat, a: Action)
    requires s.Valid() && limit > 0 && s.strike.Quiet? && Damaged(s, owner)
    ensures Damaged(Act(s, owner, limit, a), owner)
  {
    hide Selects, Delivered, WholeStrike, Store, Next, Accepted;
    match a
    case Turn(Take(n)) => if s.phase.Idle? { TakeDelivers(s, owner, limit, n); }
    case Turn(Proceed) => NextDelivers(s, limit, ZERO);
    case Deadline => StrikeDelivers(s, owner, limit, ZERO);
  }

  lemma DelicateStrikeDamages(s: Shared, owner: Owner, limit: nat, max: nat)
    requires s.Valid() && 0 < limit && s.strike.Quiet? && Inv(s, limit, max) && Calm(s) && Conserved(s, owner)
    requires Delicate(s.phase)
    ensures Damaged(WholeStrike(s, owner, limit), owner)
  {
    hide WholeStrike, Concat, Accepted;
    StrikeDelivers(s, owner, limit, ZERO);
  }

  ghost predicate Spared(owner: Owner, limit: nat, actions: seq<Action>, n: nat)
    requires limit > 0 && n <= |actions|
  {
    forall m :: 0 <= m < n && actions[m].Deadline? ==> !Delicate(Acts(owner, limit, actions[..m]).phase)
  }

  ghost predicate ActsAtMost(actions: seq<Action>, max: nat) {
    forall m :: 0 <= m < |actions| && actions[m].Turn? ==> TakesAtMost(actions[m].own, max)
  }

  lemma {:induction false} CalmActs(owner: Owner, limit: nat, max: nat, actions: seq<Action>, n: nat)
    requires 0 < limit && limit - 1 + max <= 0xFFFF && ActsAtMost(actions, max) && n <= |actions|
    requires Spared(owner, limit, actions, n)
    ensures var s := Acts(owner, limit, actions[..n]); Inv(s, limit, max) && Calm(s) && Conserved(s, owner)
    decreases n
  {
    if n > 0 {
      hide Inv, Calm, Conserved, Act;
      CalmActs(owner, limit, max, actions, n - 1);
      ActsSnoc(owner, limit, actions, n - 1);
      ActKeepsCalm(Acts(owner, limit, actions[..n - 1]), owner, limit, max, actions[n - 1]);
    }
  }

  lemma {:induction false} DamageStays(owner: Owner, limit: nat, actions: seq<Action>, m: nat, n: nat)
    requires limit > 0 && m <= n <= |actions| && Damaged(Acts(owner, limit, actions[..m]), owner)
    ensures Damaged(Acts(owner, limit, actions[..n]), owner)
    decreases n
  {
    hide *;
    if m < n {
      DamageStays(owner, limit, actions, m, n - 1);
      ActsSnoc(owner, limit, actions, n - 1);
      ActKeepsDamage(Acts(owner, limit, actions[..n - 1]), owner, limit, actions[n - 1]);
    }
  }

  /**
  In every run of worker and deadlines, for a session whose address is not all zero: every accepted
  node has been sent or is still to be, once and in order, if and only if no deadline struck
  between the storing of a node and its counting, or from the test of the size to the removal.
  */
  lemma DeadlinesConserveIff(owner: Owner, limit: nat, max: nat, actions: seq<Action>)
    requires 0 < limit && limit - 1 + max <= 0xFFFF && ActsAtMost(actions, max) && !Selects(owner, ZERO)
    ensures Conserved(Acts(owner, limit, actions), owner)
            <==> forall m :: 0 <= m < |actions| && actions[m].Deadline? ==>
                   !Delicate(Acts(owner, limit, actions[..m]).phase)
  {
    hide Acts, Delicate, Conserved, Damaged, Selects, Calm, Inv;
    assert actions[..|actions|] == actions;
    if Spared(owner, limit, actions, |actions|) {
      CalmActs(owner, limit, max, actions, |actions|);
    } else {
      var m := FirstDelicate(owner, limit, actions, |actions|);
      CalmActs(owner, limit, max, actions, m);
      DelicateStrikeDamages(Acts(owner, limit, actions[..m]), owner, limit, max);
      ActsSnoc(owner, limit, actions, m);
      DamageStays(owner, limit, actions, m + 1, |actions|);
      DamagedIsNotConserved(Acts(owner, limit, actions), owner);
    }
  }

  /** These are undisturbed runs of the finest steps. */
  lemma {:induction false} SparedIsUndisturbed(owner: Owner, limit: nat, actions: seq<Action>)
    requires limit > 0 && Spared(owner, limit, actions, |actions|)
    ensures Undisturbed(owner, limit, Expand(actions))
    decreases |actions|
  {
    if |actions| != 0 {
      var front, a := actions[..|actions| - 1], actions[|actions| - 1];
      assert Spared(owner, limit, front, |front|) by {
        forall m | 0 <= m < |front| ensures front[..m] == actions[..m] && front[m] == actions[m] {}
      }
      SparedIsUndisturbed(owner, limit, front);
      ActsAreRuns(owner, limit, front);
      PartsUndisturbed(owner, limit, Expand(front), a);
    }
  }

  /** And their messages are no larger. */
  lemma {:induction false} ExpandAtMost(actions: seq<Action>, max: nat)
    ensures ActsAtMost(actions, max) <==> AtMost(Expand(actions), max)
    decreases |actions|
  {
    if |actions| != 0 {
      var front, a := actions[..|actions| - 1], actions[|actions| - 1];
      ExpandAtMost(front, max);
      assert actions == front + [a];
      var steps, more := Expand(front), Parts(a);
      assert Expand(actions) == steps + more;
      assert (forall step <- more :: step.Worker? ==> TakesAtMost(step.own, max))
             <==> (a.Turn? ==> TakesAtMost(a.own, max)) by {
        if a.Turn? { assert Worker(a.own) in more; }
      }
      AtMostConcat(steps, more, max);
    }
  }

  lemma AtMostConcat(a: seq<Step>, b: seq<Step>, max: nat)
    ensures AtMost(a + b, max) <==> AtMost(a, max) && AtMost(b, max)
  {
    if AtMost(a + b, max) {
      forall step | step in a || step in b ensures step.Worker? ==> TakesAtMost(step.own, max) {
        assert step in a + b;
      }
    }
  }

  lemma PartsUndisturbed(owner: Owner, limit: nat, steps: seq<Step>, a: Action)
    requires limit > 0 && Undisturbed(owner, limit, steps) && Run(owner, limit, steps).strike.Quiet?
    requires a.Deadline? ==> !Delicate(Run(owner, limit, steps).phase)
    ensures Undisturbed(owner, limit, steps + Parts(a))
  {
    hide Run, Undisturbed, Do;
    match a
    case Turn(own) =>
      UndisturbedMore(owner, limit, steps, Worker(own));
    case Deadline =>
      UndisturbedMore(owner, limit, steps, Dispatch);
      UndisturbedMore(owner, limit, steps + [Dispatch], Empty);
      UndisturbedMore(owner, limit, steps + [Dispatch] + [Empty], Wipe);
      assert steps + [Dispatch] + [Empty] + [Wipe] == steps + [Dispatch, Empty, Wipe];
  }

  lemma {:induction false} FirstDelicate(owner: Owner, limit: nat, actions: seq<Action>, n: nat) returns (m: nat)
    requires limit > 0 && n <= |actions| && !Spared(owner, limit, actions, n)
    ensures m < n && Spared(owner, limit, actions, m)
    ensures actions[m].Deadline? && Delicate(Acts(owner, limit, actions[..m]).phase)
    decreases n
  {
    hide Acts, Delicate;
    if Spared(owner, limit, actions, n - 1) {
      m := n - 1;
    } else {
      m := FirstDelicate(owner, limit, actions, n - 1);
    }
  }

  // -------------------------------------------------------------- the runs that fail

  /** The worker takes a node and makes `j` more steps. */
  function Turns(n: Node, j: nat): (actions: seq<Action>)
    decreases j
  {
    if j == 0 then [Turn(Take(n))] else Turns(n, j - 1) + [Turn(Proceed)]
  }

  /** Where that takes it when the node is over the limit by itself. */
  function AfterTurns(n: Node, j: nat): (s: Shared)
    requires j <= 8
    ensures s.Valid()
  {
    var phase :=
      match j
      case 0 => Stored
      case 1 => Loaded(0)
      case 2 => Counted
      case 3 => Summing(0, 0, 1)
      case 4 => Over
      case 5 => Counting(0, 0, 1)
      case 6 => Ready(1)
      case 7 => Sent(1)
      case _ => Removing(1);
    Shared([n], if j < 2 then 0 else 1, if j < 7 then [] else [[n]], phase, Quiet, [n])
  }

  lemma {:induction false} TurnsLead(n: Node, limit: nat, j: nat)
    requires 0 < limit <= n.valueSize <= 0xFFFF && j <= 8
    ensures Acts(OwnedBy(n), limit, Turns(n, j)) == AfterTurns(n, j)
    decreases j
  {
    if j == 0 {
      assert Turns(n, 0)[..0] == [];
    } else {
      hide AfterTurns, Next;
      TurnsLead(n, limit, j - 1);
      assert Turns(n, j)[..|Turns(n, j)| - 1] == Turns(n, j - 1);
      TurnLeads(n, limit, j - 1);
    }
  }

  lemma TurnLeads(n: Node, limit: nat, j: nat)
    requires 0 < limit <= n.valueSize <= 0xFFFF && j < 8
    ensures Next(AfterTurns(n, j), limit) == AfterTurns(n, j + 1)
  {
    assert [n][..1] == [n];
  }

  lemma DeadlineAfterTurns(n: Node, limit: nat, j: nat)
    requires 0 < limit <= n.valueSize <= 0xFFFF && j <= 8
    ensures var s, t := AfterTurns(n, j), Acts(OwnedBy(n), limit, Turns(n, j) + [Deadline]);
            t == Shared([ZERO], 0, if s.count == 0 then s.sent else s.sent + [[n]], s.phase, Quiet, [n])
  {
    TurnsLead(n, limit, j);
    hide Turns;
    assert (Turns(n, j) + [Deadline])[..|Turns(n, j)|] == Turns(n, j);
    assert [n][..1] == [n] && Copies(ZERO, 1) == [ZERO];
  }

  /** A deadline between the storing of a node and its counting: the node is lost and a wiped one counted. */
  lemma DeadlineLosesNode(n: Node, limit: nat, j: nat)
    requires 0 < limit <= n.valueSize <= 0xFFFF && j < 2
    ensures var s := Steps(Acts(OwnedBy(n), limit, Turns(n, j) + [Deadline]), limit, 2 - j);
            s.phase.Counted? && s.taken == [n] && PoolOf(s) == Pool([ZERO], [])
  {
    hide Acts, Turns;
    DeadlineAfterTurns(n, limit, j);
    var s := Acts(OwnedBy(n), limit, Turns(n, j) + [Deadline]);
    StepMore(s, limit, 1 - j);
    StepMore(Next(s, limit), limit, 0);
  }

  /** From the test of the size to the sending of the batch: a wiped node is sent. */
  lemma DeadlineSendsWiped(n: Node, limit: nat, j: nat)
    requires 0 < limit <= n.valueSize <= 0xFFFF && 4 <= j < 7
    ensures var s := Steps(Acts(OwnedBy(n), limit, Turns(n, j) + [Deadline]), limit, 7 - j);
            s.phase.Sent? && s.taken == [n] && s.sent == [[n], [ZERO]]
  {
    hide Acts, Turns;
    DeadlineAfterTurns(n, limit, j);
    assert [n][..1] == [n];
    WipedIsSent(Acts(OwnedBy(n), limit, Turns(n, j) + [Deadline]), limit, 7 - j);
  }

  lemma {:induction false} WipedIsSent(s: Shared, limit: nat, i: nat)
    requires s.Valid() && limit > 0 && s.cells == [ZERO] && s.count == 0
    requires s.phase == if i == 3 then Over else if i == 2 then s.phase else Ready(1)
    requires i == 2 ==> s.phase.Counting? && s.phase.k == 0 && s.phase.end <= 1
    requires 1 <= i <= 3
    ensures Steps(s, limit, i) == s.(phase := Sent(1), sent := s.sent + [[ZERO]])
    decreases i
  {
    var t := Next(s, limit);
    assert [ZERO][..1] == [ZERO];
    StepMore(s, limit, i - 1);
    hide Next, Steps;
    if i == 1 { StepMore(t, limit, 0); } else { WipedIsSent(t, limit, i - 1); }
  }

  lemma {:induction false} TurnsAtMost(n: Node, j: nat)
    ensures ActsAtMost(Turns(n, j), n.valueSize)
    decreases j
  {
    if j > 0 { TurnsAtMost(n, j - 1); }
  }

  /** After the sending: the batch is sent twice, and the worker finds fewer nodes than it has sent. */
  lemma DeadlineSendsTwice(n: Node, limit: nat)
    requires 0 < limit <= n.valueSize <= 0xFFFF
    ensures var s := Acts(OwnedBy(n), limit, Turns(n, 7) + [Deadline]);
            s.sent == [[n], [n]] && Next(s, limit).phase.Resetting?
    ensures ActsAtMost(Turns(n, 7) + [Deadline], n.valueSize)
  {
    TurnsAtMost(n, 7);
    hide Acts, Turns;
    DeadlineAfterTurns(n, limit, 7);
  }

  /** After the worker has seen that there are enough nodes to remove: it moves a negative number of them. */
  lemma DeadlineBreaksRemoval(n: Node, limit: nat)
    requires 0 < limit <= n.valueSize <= 0xFFFF
    ensures var s := Acts(OwnedBy(n), limit, Turns(n, 8) + [Deadline]);
            s.sent == [[n], [n]] && s.phase == Removing(1) && s.count == 0 && Next(s, limit).phase.Broken?
  {
    hide Acts, Turns;
    DeadlineAfterTurns(n, limit, 8);
  }

  // -------------------------------------------------------------- and one that does not

  /** A deadline that interferes, but waits for the worker to send the node before it empties the pool. */
  function SlowDeadline(n: Node): seq<Step> {
    [Worker(Take(n)), Dispatch] + Proceeds(7) + [Empty] + Proceeds(2) + [Wipe]
  }

  /** Spread out like that, a deadline at a delicate point can do no harm. */
  lemma SlowDeadlineConserves(n: Node, limit: nat)
    requires 0 < limit <= n.valueSize <= 0xFFFF
    ensures var owner := OwnedBy(n);
            && !Undisturbed(owner, limit, SlowDeadline(n))
            && Conserved(Run(owner, limit, SlowDeadline(n)), owner)
  {
    var owner, steps := OwnedBy(n), SlowDeadline(n);
    FirstStep(n, limit);
    SlowRun(n, limit);
    SlowEndConserves(n);
    assert steps[..1] == [Worker(Take(n))] && steps[1] == Dispatch;
    hide Run, SlowDeadline, Conserved;
    assert Interferes(Run(owner, limit, steps[..1]), owner, limit, steps[1]);
  }

  lemma FirstStep(n: Node, limit: nat)
    requires limit > 0
    ensures Run(OwnedBy(n), limit, [Worker(Take(n))]) == AfterTurns(n, 0)
  {
    assert [Worker(Take(n))][..0] == [];
  }

  lemma SlowEndConserves(n: Node)
    ensures Conserved(Shared([ZERO], 0, [[n]], Idle, Quiet, [n]), OwnedBy(n))
  {
    AcceptedSnoc(OwnedBy(n), [], n);
    assert [] + [n] == [n];
    ConcatSnoc([], [n]);
    assert [] + [[n]] == [[n]];
  }

  lemma SlowRun(n: Node, limit: nat)
    requires 0 < limit <= n.valueSize <= 0xFFFF
    ensures Run(OwnedBy(n), limit, SlowDeadline(n)) == Shared([ZERO], 0, [[n]], Idle, Quiet, [n])
  {
    hide Run, Next, Steps, Proceeds;
    var owner := OwnedBy(n);
    var first := [Worker(Take(n)), Dispatch];
    FirstStep(n, limit);
    RunMore(owner, limit, [Worker(Take(n))], Dispatch);
    assert [Worker(Take(n))] + [Dispatch] == first;
    RunProceeds(owner, limit, first, 7);
    SlowSteps(n, limit, 7);
    RunMore(owner, limit, first + Proceeds(7), Empty);
    RunProceeds(owner, limit, first + Proceeds(7) + [Empty], 2);
    SlowEnd(n, limit);
    RunMore(owner, limit, first + Proceeds(7) + [Empty] + Proceeds(2), Wipe);
    assert Copies(ZERO, 1) == [ZERO];
  }

  lemma {:induction false} SlowSteps(n: Node, limit: nat, j: nat)
    requires 0 < limit <= n.valueSize <= 0xFFFF && j <= 7
    ensures Steps(AfterTurns(n, 0).(strike := Dispatched), limit, j) == AfterTurns(n, j).(strike := Dispatched)
    decreases j
  {
    var s := AfterTurns(n, 0).(strike := Dispatched);
    if j == 0 {
      StepMore(s, limit, 0);
    } else {
      hide Next, Steps, AfterTurns;
      var t := AfterTurns(n, j - 1);
      SlowSteps(n, limit, j - 1);
      StepsAdd(s, limit, j - 1, 1);
      StepMore(t.(strike := Dispatched), limit, 0);
      TurnLeads(n, limit, j - 1);
      NextWhileStruck(n, limit, j - 1);
    }
  }

  lemma NextWhileStruck(n: Node, limit: nat, j: nat)
    requires limit > 0 && j < 7
    ensures var s := AfterTurns(n, j);
            Next(s.(strike := Dispatched), limit) == Next(s, limit).(strike := Dispatched)
  {
  }

  lemma SlowEnd(n: Node, limit: nat)
    requires limit > 0
    ensures Steps(Shared([n], 0, [[n]], Sent(1), Emptied, [n]), limit, 2) == Shared([n], 0, [[n]], Idle, Emptied, [n])
  {
    var s := Shared([n], 0, [[n]], Sent(1), Emptied, [n]);
    StepMore(s, limit, 1);
    StepMore(Next(s, limit), limit, 0);
  }
}
