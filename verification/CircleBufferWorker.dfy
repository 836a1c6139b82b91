/**
The writer's side of `src/circle_buffer/dmmr_circle_buffer.c`: building the ring, draining the
FIFO into the batch, and publishing the batch on the ring.
*/
module CircleBufferWorker {
  import opened CircleBuffer

  function Min(a: nat, b: nat): nat { if a < b then a else b }

  // -------------------------------------------------------------- publishing

  /** The ring after `items` have been written one after the other from the cursor on. */
  function Publish<T>(size: nat, slots: seq<T>, cursor: nat, items: seq<T>): (r: (seq<T>, nat))
    requires size >= 2 && |slots| == size && cursor < size - 1
    ensures |r.0| == size && r.1 < size - 1
    decreases |items|
  {
    if items == [] then (slots, cursor)
    else Publish(size, slots[cursor := items[0]], Succ(size, cursor), items[1..])
  }

  lemma {:induction false} PublishSnoc<T>(size: nat, slots: seq<T>, cursor: nat, items: seq<T>, x: T)
    requires size >= 2 && |slots| == size && cursor < size - 1
    ensures var (s, c) := Publish(size, slots, cursor, items);
            Publish(size, slots, cursor, items + [x]) == (s[c := x], Succ(size, c))
    decreases |items|
  {
    if items != [] {
      assert (items + [x])[1..] == items[1..] + [x];
      PublishSnoc(size, slots[cursor := items[0]], Succ(size, cursor), items[1..], x);
    }
  }

  /**
  Publishing m messages from position w leaves the last min(m, size - 1) of them on the ring,
  each at its own position; slots none of them falls on, the last slot among them, are untouched.
  */
  lemma {:induction false} PublishKeepsLast<T>(size: nat, slots: seq<T>, w: nat, items: seq<T>)
    requires size >= 2 && |slots| == size
    ensures var (s, c) := Publish(size, slots, Pos(size, w), items);
            && c == Pos(size, w + |items|)
            && s[size - 1] == slots[size - 1]
            && (forall m :: w <= m < w + |items| <= m + (size - 1) ==> s[Pos(size, m)] == items[m - w])
            && (forall m :: w + |items| <= m < w + (size - 1) ==> s[Pos(size, m)] == slots[Pos(size, m)])
    decreases |items|
  {
    if items != [] {
      var n := |items| - 1;
      var front, x := items[..n], items[n];
      assert items == front + [x];
      PublishKeepsLast(size, slots, w, front);
      PublishSnoc(size, slots, Pos(size, w), front, x);
      PosNext(size, w + n);
      hide Publish, Pos, Succ;
      var s := Publish(size, slots, Pos(size, w), front).0;
      forall m | w <= m < w + |items| <= m + (size - 1) ensures s[Pos(size, w + n) := x][Pos(size, m)] == items[m - w] {
        if m < w + n { PosLater(size, m, w + n - m); }
      }
      forall m | w + |items| <= m < w + (size - 1)
        ensures s[Pos(size, w + n) := x][Pos(size, m)] == slots[Pos(size, m)]
      {
        PosLater(size, w + n, m - (w + n));
      }
    }
  }

  lemma PosNext(size: nat, k: nat)
    requires size >= 2
    ensures Pos(size, k + 1) == Succ(size, Pos(size, k))
  {
  }

  // -------------------------------------------------------------- passes of the worker

  /**
  The worker between passes.  The FIFO and the batch hold references; what a reference leads to
  is read when it is published.  The batch pointer is set once and never moved back, so the batch stays.
  */
  datatype Worker<R, T> = Worker(slots: seq<T>, cursor: nat, fifo: seq<R>, batch: seq<R>) {
    ghost predicate Valid(size: nat) {
      size >= 2 && |slots| == size && cursor < size - 1 && |batch| <= MAX_BATCH
    }
  }

  /** What a list of references leads to. */
  function ReadAll<R, T>(mem: R -> T, items: seq<R>): (r: seq<T>)
    ensures |r| == |items|
  {
    seq(|items|, i requires 0 <= i < |items| => mem(items[i]))
  }

  function Drained<R, T>(w: Worker<R, T>): (k: nat)
    requires |w.batch| <= MAX_BATCH
    ensures k <= |w.fifo| && k + |w.batch| <= MAX_BATCH
  {
    Min(|w.fifo|, MAX_BATCH - |w.batch|)
  }

  /** One turn of the worker: drain, then publish everything in the batch. */
  function Pass<R, T>(size: nat, w: Worker<R, T>, mem: R -> T): (r: Worker<R, T>)
    requires w.Valid(size)
    ensures r.Valid(size)
  {
    var k := Drained(w);
    var batch := w.batch + w.fifo[..k];
    var (slots, cursor) := Publish(size, w.slots, w.cursor, ReadAll(mem, batch));
    Worker(slots, cursor, w.fifo[k..], batch)
  }

  /**
  A pass takes the first min(q, 0x400) queued messages and publishes those and no others if
  and only if it starts with an empty batch.  (What a pass publishes is the batch it ends with.)
  */
  lemma CleanPassIff<R, T>(size: nat, w: Worker<R, T>, mem: R -> T)
    requires w.Valid(size) && w.fifo != []
    ensures var m := if |w.fifo| < 0x400 then |w.fifo| else 0x400;
            var r := Pass(size, w, mem);
            r.fifo == w.fifo[m..] && r.batch == w.fifo[..m] <==> w.batch == []
  {
  }

  /** Once the batch is full nothing leaves the queue any more, and every pass repeats the same batch. */
  lemma FullBatchStalls<R, T>(size: nat, w: Worker<R, T>, mem: R -> T)
    requires w.Valid(size)
    ensures |w.batch| == 0x400 ==> Pass(size, w, mem).fifo == w.fifo && Pass(size, w, mem).batch == w.batch
    ensures |w.batch| < 0x400 && w.fifo != [] ==> |Pass(size, w, mem).fifo| < |w.fifo|
  {
  }

  /** What arrives before a turn of the worker, and what the references lead to during it. */
  datatype Turn<!R, T> = Turn(arrivals: seq<R>, mem: R -> T)

  /** A run: items arrive, then the worker makes a pass if there is anything to take. */
  datatype History<R, T> = History(worker: Worker<R, T>, refs: seq<R>, published: seq<T>, passes: nat)

  function RunPasses<R, T>(size: nat, slots: seq<T>, turns: seq<Turn<R, T>>): (h: History<R, T>)
    requires size >= 2 && |slots| == size
    ensures h.worker.Valid(size) && |h.published| == |h.refs|
    decreases |turns|
  {
    if |turns| == 0 then History(Worker(slots, 0, [], []), [], [], 0)
    else
      var h, t := RunPasses(size, slots, turns[..|turns| - 1]), turns[|turns| - 1];
      var w := h.worker.(fifo := h.worker.fifo + t.arrivals);
      if |w.fifo| == 0 then h
      else
        var w' := Pass(size, w, t.mem);
        History(w', h.refs + w'.batch, h.published + ReadAll(t.mem, w'.batch), h.passes + 1)
  }

  function Arrived<R, T>(turns: seq<Turn<R, T>>): (items: seq<R>)
    decreases |turns|
  {
    if |turns| == 0 then [] else Arrived(turns[..|turns| - 1]) + turns[|turns| - 1].arrivals
  }

  /** The batch is everything taken from the queue so far, in order; nothing is lost before it. */
  lemma {:induction false} BatchAccumulates<R, T>(size: nat, slots: seq<T>, turns: seq<Turn<R, T>>)
    requires size >= 2 && |slots| == size
    ensures var h := RunPasses(size, slots, turns);
            && h.worker.batch + h.worker.fifo == Arrived(turns)
            && (h.worker.fifo != [] ==> |h.worker.batch| == MAX_BATCH)
            && (h.passes == 0 ==> h.worker.batch == [] && h.refs == [])
            && (h.passes == 1 ==> h.refs == h.worker.batch)
            && (h.passes >= 1 ==> |h.worker.batch| > 0)
            && (h.passes >= 2 ==> |h.refs| > |h.worker.batch|)
    decreases |turns|
  {
    if |turns| != 0 {
      var front, t := turns[..|turns| - 1], turns[|turns| - 1];
      BatchAccumulates(size, slots, front);
      var h := RunPasses(size, slots, front);
      var w := h.worker.(fifo := h.worker.fifo + t.arrivals);
      Regroup(w.batch, h.worker.fifo, t.arrivals, Drained(w));
    }
  }

  lemma Regroup<R>(batch: seq<R>, fifo: seq<R>, last: seq<R>, k: nat)
    requires k <= |fifo + last|
    ensures (batch + (fifo + last)[..k]) + (fifo + last)[k..] == (batch + fifo) + last
    ensures batch + (fifo + last) == (batch + fifo) + last
  {
    assert fifo + last == (fifo + last)[..k] + (fifo + last)[k..];
  }

  /** Once anything has arrived nothing more does, and what has fits in one batch if the worker turns again. */
  ghost predicate OneBatch<R, T>(turns: seq<Turn<R, T>>) {
    forall n :: 0 <= n < |turns| && Arrived(turns[..n]) != [] ==>
      turns[n].arrivals == [] && |Arrived(turns[..n])| <= MAX_BATCH
  }

  lemma OneBatchSnoc<R, T>(turns: seq<Turn<R, T>>)
    requires |turns| > 0
    ensures var front, t := turns[..|turns| - 1], turns[|turns| - 1];
            var still := Arrived(front) == [] || (t.arrivals == [] && |Arrived(front)| <= MAX_BATCH);
            OneBatch(turns) <==> OneBatch(front) && still
  {
    hide Arrived;
    var front := turns[..|turns| - 1];
    forall n | 0 <= n < |front| ensures front[..n] == turns[..n] && front[n] == turns[n] {}
  }

  lemma {:induction false} PassesOf<R, T>(size: nat, slots: seq<T>, turns: seq<Turn<R, T>>)
    requires size >= 2 && |slots| == size
    ensures var h := RunPasses(size, slots, turns);
            (h.passes == 0 <==> Arrived(turns) == []) && (h.passes <= 1 <==> OneBatch(turns))
    decreases |turns|
  {
    if |turns| != 0 {
      var front := turns[..|turns| - 1];
      PassesOf(size, slots, front);
      BatchAccumulates(size, slots, front);
      OneBatchSnoc(turns);
      hide OneBatch;
    }
  }

  /**
  Over whole runs: each taken message is published once, in order, if and only if what arrived
  made one batch: everything before the worker's first pass, and no more than the batch holds.
  */
  lemma PublishedOnceIff<R, T>(size: nat, slots: seq<T>, turns: seq<Turn<R, T>>)
    requires size >= 2 && |slots| == size
    ensures var h := RunPasses(size, slots, turns);
            h.refs == h.worker.batch <==> OneBatch(turns)
  {
    hide OneBatch, RunPasses;
    BatchAccumulates(size, slots, turns);
    PassesOf(size, slots, turns);
  }

  ghost predicate Reads<R(!new), T>(t: Turn<R, T>, mem: R -> T) { forall r :: t.mem(r) == mem(r) }

  /** From the first arrival on, each reference leads to the same thing at every turn. */
  ghost predicate StableMemory<R(!new), T>(turns: seq<Turn<R, T>>, mem: R -> T) {
    forall n :: 0 <= n < |turns| && Arrived(turns[..n + 1]) != [] ==> Reads(turns[n], mem)
  }

  /** So they do if they always do. */
  lemma SameMemoryIsStable<R(!new), T>(turns: seq<Turn<R, T>>, mem: R -> T)
    requires forall n, r :: 0 <= n < |turns| ==> turns[n].mem(r) == mem(r)
    ensures StableMemory(turns, mem)
  {
  }

  lemma StableFront<R(!new), T>(turns: seq<Turn<R, T>>, mem: R -> T)
    requires |turns| > 0 && StableMemory(turns, mem)
    ensures StableMemory(turns[..|turns| - 1], mem)
    ensures Arrived(turns) != [] ==> Reads(turns[|turns| - 1], mem)
  {
    hide Arrived, Reads;
    var k := |turns| - 1;
    var front := turns[..k];
    forall n | 0 <= n < k && Arrived(front[..n + 1]) != [] ensures Reads(front[n], mem) {
      assert front[..n + 1] == turns[..n + 1];
    }
    assert turns[..k + 1] == turns;
  }

  /** With nothing changing behind the references, what is published is what they lead to. */
  lemma {:induction false} PublishedIsRead<R(!new), T>(size: nat, slots: seq<T>, turns: seq<Turn<R, T>>, mem: R -> T)
    requires size >= 2 && |slots| == size && StableMemory(turns, mem)
    ensures var h := RunPasses(size, slots, turns); h.published == ReadAll(mem, h.refs)
    decreases |turns|
  {
    if |turns| != 0 {
      hide StableMemory;
      StableFront(turns, mem);
      BatchAccumulates(size, slots, turns[..|turns| - 1]);
      PublishedIsRead(size, slots, turns[..|turns| - 1], mem);
    }
  }

  /** Then one batch of arrivals comes out on the ring as it went into the queue, as far as it was taken. */
  lemma OneBatchPublishesArrived<R(!new), T>(size: nat, slots: seq<T>, turns: seq<Turn<R, T>>, mem: R -> T)
    requires size >= 2 && |slots| == size && StableMemory(turns, mem) && OneBatch(turns)
    ensures var h := RunPasses(size, slots, turns);
            |h.published| <= |Arrived(turns)| && h.published == ReadAll(mem, Arrived(turns)[..|h.published|])
  {
    hide RunPasses, Arrived, OneBatch, StableMemory;
    var h := RunPasses(size, slots, turns);
    PublishedIsRead(size, slots, turns, mem);
    PublishedOnceIff(size, slots, turns);
    BatchAccumulates(size, slots, turns);
    assert Arrived(turns)[..|h.refs|] == h.refs;
  }

  // -------------------------------------------------------------- the worker's code

  /** `struct node_circle_buffer`: a node, its links in the circular queue, and the slot before it. */
  datatype Slot<T> = Slot(node: T, next: nat, prev: nat, prevPtr: nat)

  class Ring<R(0), T(0)> {
    const size: nat
    const slots: array<Slot<T>>
    /** The ends of the queue; the index `size` stands for its head. */
    var first: nat
    var last: nat
    var cursor: nat
    var fifo: seq<R>
    const batch: array<R>
    var b: nat

    ghost predicate Allocated() {
      slots.Length == size && batch.Length == MAX_BATCH && slots as object != batch
    }

    /** The ring in address order. */
    ghost predicate Linked()
      reads this, slots
    {
      && Allocated() && size >= 1 && first == 0 && last == size - 1
      && forall i :: 0 <= i < size ==>
           && slots[i].next == i + 1
           && slots[i].prev == (if i == 0 then size else i - 1)
           && slots[i].prevPtr == (if i == 0 then size - 1 else i - 1)
    }

    ghost predicate Valid()
      reads this, slots
    {
      Linked() && size >= 2 && cursor < size - 1 && b <= MAX_BATCH
    }

    ghost function Nodes(): (s: seq<T>)
      requires Allocated()
      reads slots
      ensures |s| == size && forall i :: 0 <= i < size ==> s[i] == slots[i].node
    {
      seq(size, i requires 0 <= i < size && Allocated() reads slots => slots[i].node)
    }

    ghost function Abstract(): (w: Worker<R, T>)
      requires Valid()
      reads this, slots, batch
      ensures w.Valid(size)
    {
      Worker(Nodes(), cursor, fifo, batch[..b])
    }

    constructor (n: nat, zero: T)
      ensures Allocated() && size == n && fresh(slots) && fresh(batch)
      ensures forall i :: 0 <= i < n ==> slots[i].node == zero
    {
      size := n;
      slots := new Slot<T>[n](_ => Slot(zero, 0, 0, 0));
      batch := new R[MAX_BATCH];
      first, last, cursor, fifo, b := n, n, 0, [], 0;
    }

    /** `CIRCLEQ_INSERT_TAIL`. */
    method InsertTail(p: nat)
      requires Allocated() && p < size
      requires first == size || last < size
      modifies this`first, this`last, slots
      ensures last == p && first == if old(first) == size then p else old(first)
      ensures forall i :: 0 <= i < size && i != p ==>
                slots[i] == if old(first) != size && i == old(last) then old(slots[i]).(next := p) else old(slots[i])
      ensures slots[p].next == size && slots[p].prev == (if old(first) == size then size else old(last))
      ensures slots[p].node == old(slots[p].node)
    {
      slots[p] := slots[p].(prev := if first == size then size else last);
      if first == size {
        first := p;
      } else {
        slots[last] := slots[last].(next := p);
      }
      slots[p] := slots[p].(next := size);
      last := p;
    }

    /** `start`: the slots are linked in address order and the cursor is put on the first. */
    method Start()
      requires Allocated() && size >= 1
      modifies this, slots
      ensures Linked() && cursor == 0 && fifo == [] && b == 0
      ensures Nodes() == old(Nodes())
    {
      first, last, fifo, b := size, size, [], 0;
      for p := 0 to size
        invariant fifo == [] && b == 0
        invariant p == 0 ==> first == size
        invariant p > 0 ==> first == 0 && last == p - 1
        invariant forall i :: 0 <= i < p ==>
                    && slots[i].next == (if i == p - 1 then size else i + 1)
                    && slots[i].prev == (if i == 0 then size else i - 1)
                    && (i > 0 ==> slots[i].prevPtr == i - 1)
        invariant forall i :: 0 <= i < size ==> slots[i].node == old(slots[i].node)
      {
        InsertTail(p);
        if p > 0 { slots[p] := slots[p].(prevPtr := p - 1); }
      }
      cursor := first;
      slots[first] := slots[first].(prevPtr := last);
    }

    /** `foward_current_node`. */
    method Forward()
      requires Valid()
      modifies this`cursor
      ensures Valid() && cursor == Succ(size, old(cursor))
    {
      cursor := slots[cursor].next;
      if cursor == last {
        cursor := first;
      }
    }

    /** `iterate`, the reader's way to the next slot: the same walk. */
    method Iterate(slot: nat) returns (r: nat)
      requires Valid() && slot < size - 1
      ensures r == Succ(size, slot)
    {
      var n := slots[slot].next;
      r := if n == last then first else n;
    }

    /** The drain loop, under the FIFO lock. */
    method Drain()
      requires Valid()
      modifies this`fifo, this`b, batch
      ensures Valid()
      ensures var w := old(Abstract());
              var k := Drained(w);
              Abstract() == w.(fifo := w.fifo[k..], batch := w.batch + w.fifo[..k])
    {
      ghost var w := Abstract();
      ghost var k := 0;
      while fifo != [] && b < MAX_BATCH
        invariant k <= |w.fifo| && b == |w.batch| + k <= MAX_BATCH
        invariant fifo == w.fifo[k..] && batch[..b] == w.batch + w.fifo[..k]
        decreases |fifo|
      {
        batch[b] := fifo[0];
        fifo := fifo[1..];
        b, k := b + 1, k + 1;
      }
    }

    /** The publish loop; `mem` is what the copy reads from where a reference leads. */
    method PublishBatch(mem: R -> T)
      requires Valid()
      modifies this`cursor, slots
      ensures Valid()
      ensures var w := old(Abstract());
              var (s, c) := Publish(size, w.slots, w.cursor, ReadAll(mem, w.batch));
              Abstract() == w.(slots := s, cursor := c)
    {
      ghost var w := Abstract();
      ghost var items := ReadAll(mem, w.batch);
      for i := 0 to b
        invariant Valid() && batch[..b] == w.batch
        invariant Nodes() == Publish(size, w.slots, w.cursor, items[..i]).0
        invariant cursor == Publish(size, w.slots, w.cursor, items[..i]).1
      {
        PublishSnoc(size, w.slots, w.cursor, items[..i], items[i]);
        assert items[..i + 1] == items[..i] + [items[i]];
        assert batch[i] == batch[..b][i] == w.batch[i];
        Put(mem(batch[i]));
        Forward();
      }
      assert items[..b] == items;
    }

    /** `__vcpy` into the slot under the cursor. */
    method Put(x: T)
      requires Valid()
      modifies slots
      ensures Valid() && Nodes() == old(Nodes())[cursor := x]
    {
      slots[cursor] := slots[cursor].(node := x);
    }

    /** One whole turn of the worker. */
    method WorkerPass(mem: R -> T)
      requires Valid()
      modifies this`fifo, this`b, this`cursor, batch, slots
      ensures Valid() && Abstract() == Pass(size, old(Abstract()), mem)
    {
      Drain();
      PublishBatch(mem);
    }
  }
}
