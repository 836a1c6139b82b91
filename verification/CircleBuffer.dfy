/**
The circular buffer of `src/circle_buffer/dmmr_circle_buffer.c`: a FIFO drained in batches by
one writer, and a ring of slots that the writer fills and any number of readers follow.
*/
module CircleBuffer {

  const MAX_BATCH := 0x400

  // -------------------------------------------------------------- walking the ring

  /** The slot after `i` on the walk; a ring of `size` slots never visits its last one. */
  function Succ(size: nat, i: nat): (j: nat)
    requires size >= 2 && i < size - 1
    ensures j < size - 1
  {
    if i + 1 == size - 1 then 0 else i + 1
  }

  /** The slot of the writer after `k` messages. */
  function Pos(size: nat, k: nat): (p: nat)
    requires size >= 2
    ensures p < size - 1
    decreases k, size
  {
    if k == 0 then 0 else Succ(size, Pos(size, k - 1))
  }

  /** Positions repeat every `size - 1` messages and not earlier. */
  lemma {:induction false} PosLater(size: nat, k: nat, d: nat)
    requires size >= 2 && d <= size - 1
    ensures var p := Pos(size, k) + d;
            Pos(size, k + d) == if p < size - 1 then p else p - (size - 1)
    decreases d
  {
    if d != 0 { PosLater(size, k, d - 1); }
  }

  // -------------------------------------------------------------- the slots

  /** What a slot holds: nothing yet, or a message with its number in the order of publication. */
  datatype Cell<+T> = Unwritten | Message(number: nat, body: T)

  predicate SameMessage<T>(a: Cell<T>, b: Cell<T>) {
    if a.Message? then b.Message? && a.number == b.number else b.Unwritten?
  }

  /** The slot for position `r` shows the newest of the `log` messages that fall on it. */
  ghost predicate Shows<T>(size: nat, log: seq<T>, r: nat, cell: Cell<T>)
    requires size >= 2
  {
    match cell
    case Unwritten => forall m :: 0 <= m < |log| ==> Pos(size, m) != Pos(size, r)
    case Message(m, body) =>
      m < |log| <= m + (size - 1) && Pos(size, m) == Pos(size, r) && body == log[m]
  }

  /** The ring holds the last `size - 1` messages of the log, each in its own slot. */
  ghost predicate Holds<T>(size: nat, slots: seq<Cell<T>>, log: seq<T>)
    requires size >= 2
  {
    |slots| == size && forall r: nat :: Shows(size, log, r, slots[Pos(size, r)])
  }

  lemma EmptyHolds<T>(size: nat, slots: seq<Cell<T>>)
    requires size >= 2 && |slots| == size && forall i :: 0 <= i < size ==> slots[i] == Unwritten
    ensures Holds(size, slots, [])
  {
  }

  lemma CopyKeepsHolds<T>(size: nat, slots: seq<Cell<T>>, log: seq<T>, body: T)
    requires size >= 2 && Holds(size, slots, log)
    ensures Holds(size, slots[Pos(size, |log|) := Message(|log|, body)], log + [body])
  {
    var w := |log|;
    var slots', log' := slots[Pos(size, w) := Message(w, body)], log + [body];
    forall r: nat ensures Shows(size, log', r, slots'[Pos(size, r)]) {
      assert Shows(size, log, r, slots[Pos(size, r)]);
      if Pos(size, r) != Pos(size, w) {
        match slots[Pos(size, r)] {
          case Unwritten =>
          case Message(m, _) =>
            PosLater(size, m, size - 1);
            assert w != m + (size - 1);
        }
      }
    }
  }

  /** A slot shows message `r` exactly while it is among the last `size - 1` written. */
  lemma ShowsItsOwn<T>(size: nat, log: seq<T>, r: nat, cell: Cell<T>)
    requires size >= 2 && Shows(size, log, r, cell)
    ensures r < |log| <= r + (size - 1) <==> r < |log| && cell == Message(r, log[r])
    ensures |log| == r && r >= size - 1 ==> cell == Message(r - (size - 1), log[r - (size - 1)])
    ensures |log| == r < size - 1 ==> cell == Unwritten
  {
    if r < |log| <= r + (size - 1) {
      var m := cell.number;
      SamePosition(size, m, r);
    }
    if |log| == r {
      if cell.Message? {
        SamePosition(size, cell.number, r);
      } else if r >= size - 1 {
        PosLater(size, r - (size - 1), size - 1);
      }
    }
  }

  /** Two message numbers on one slot are equal or at least a turn apart. */
  lemma SamePosition(size: nat, m: nat, r: nat)
    requires size >= 2 && Pos(size, m) == Pos(size, r)
    ensures m == r || m + (size - 1) <= r || r + (size - 1) <= m
  {
    var low, gap := if m <= r then m else r, if m <= r then r - m else m - r;
    if gap < size - 1 { PosLater(size, low, gap); }
  }

  // -------------------------------------------------------------- behind the cursor

  /** The pointer comparison of `__is_behind_cursor`, on addresses. */
  predicate IsBehind(a: int, b: int, base: int, end: int) {
    if a == b then false
    else if a < b then b - a < end - base
    else (end - a) + (b - base) < end - base
  }

  /** For pointers into the buffer it says no more than that they differ. */
  lemma IsBehindMeansElsewhere(a: int, b: int, base: int, end: int)
    requires base <= a < end && base <= b < end
    ensures IsBehind(a, b, base, end) <==> a != b
  {
  }

  predicate BehindSlot(size: nat, reader: nat, writer: nat) {
    IsBehind(reader, writer, 0, size)
  }

  // -------------------------------------------------------------- the protocol

  /**
  A look at a slot: what it held at first, whether it was being written at any time of the look, how
  many messages had been written when the look began, and how many had been begun when it ended.
  */
  datatype Sight<+T> = Sight(cell: Cell<T>, torn: bool, written: nat, begun: nat)

  /**
  A reader processes its slot, waits to find itself behind the cursor, and walks on.  One that
  walks on from the last slot leaves the ring: the link of that slot is the head of the queue.
  */
  datatype Phase<+T> = Reading | Looking(first: Sight<T>) | Waiting | Lost

  /** `stray` marks a reader that started on the last slot. */
  datatype Reader<+T> = Reader(slot: nat, stray: bool, phase: Phase<T>, start: nat, looks: seq<Sight<T>>) {
    /** The number of the message the reader stands at. */
    function Position(): nat
      requires phase.Reading? || phase.Looking? || looks != []
    {
      start + |looks| - if phase.Reading? || phase.Looking? then 0 else 1
    }

    predicate Valid(size: nat) {
      slot < size && (phase.Reading? || phase.Looking? || looks != [])
    }

    function Looked(look: Sight<T>): Reader<T> {
      this.(phase := Waiting, looks := looks + [look])
    }

    /** What the slots looked at held. */
    function Seen(): (cells: seq<Cell<T>>)
      ensures |cells| == |looks| && forall k :: 0 <= k < |looks| ==> cells[k] == looks[k].cell
    {
      seq(|looks|, k requires 0 <= k < |looks| => looks[k].cell)
    }

    function Advanced(size: nat): Reader<T>
      requires size >= 2 && Valid(size)
    {
      if slot == size - 1 then this.(phase := Lost) else this.(phase := Reading, slot := Succ(size, slot))
    }
  }

  /** The writer is between messages, is filling or has filled the slot, or has put the cursor on the last slot. */
  datatype Writer = Idle | Copying | Copied | Wrapping

  /** `log` lists the messages written so far. */
  datatype System<T> =
    System(size: nat, slots: seq<Cell<T>>, cursor: nat, writer: Writer, log: seq<T>, readers: seq<Reader<T>>) {
    ghost predicate Valid() {
      && size >= 2 && |slots| == size && cursor < size && (writer == Wrapping <==> cursor == size - 1)
      && (writer == Copied ==> log != [])
      && forall i :: 0 <= i < |readers| ==> readers[i].Valid(size)
    }

    /** How many messages the writer has done with. */
    function Published(): nat
      requires writer == Copied ==> log != []
    {
      |log| - if writer == Copied then 1 else 0
    }

    /** How many messages the writer has begun to write. */
    function Begun(): nat { |log| + if writer == Copying then 1 else 0 }

    /** What `__is_behind_cursor` answers a reader. */
    predicate Passes(i: nat)
      requires i < |readers|
    {
      readers[i].phase.Waiting? && BehindSlot(size, readers[i].slot, cursor)
    }

    /** A look that begins now. */
    function FirstSight(slot: nat): Sight<T>
      requires slot < |slots|
    {
      Sight(slots[slot], writer == Copying && cursor == slot, |log|, Begun())
    }

    /** A look that began with `first` and ends now. */
    function WholeSight(first: Sight<T>, slot: nat): (look: Sight<T>)
      requires slot < |slots|
    {
      var now := FirstSight(slot);
      first.(torn := first.torn || now.torn || !SameMessage(now.cell, first.cell), begun := now.begun)
    }
  }

  datatype Step<T> =
    | Begin              // the writer starts to fill the slot under the cursor
    | Copy(body: T)      // and has filled it
    | Move               // stores the next slot in the cursor
    | Wrap               // and, if that is the last slot, stores the first
    | Join               // a session starts at the cursor
    | Look(reader: nat)  // a session starts to process the node in its slot
    | Taken(reader: nat) // and has compared and copied it
    | Advance(reader: nat) // finds itself behind the cursor, and walks on by links that never change

  function Do<T>(s: System<T>, step: Step<T>): (t: System<T>)
    requires s.Valid()
    ensures t.Valid() && t.size == s.size
  {
    match step
    case Begin => if s.writer != Idle then s else s.(writer := Copying)
    case Copy(body) =>
      if s.writer != Copying then s
      else s.(slots := s.slots[s.cursor := Message(|s.log|, body)], writer := Copied, log := s.log + [body])
    case Move =>
      if s.writer != Copied then s
      else s.(cursor := s.cursor + 1, writer := if s.cursor + 1 == s.size - 1 then Wrapping else Idle)
    case Wrap =>
      if s.writer != Wrapping then s else s.(cursor := 0, writer := Idle)
    case Join =>
      s.(readers := s.readers + [Reader(s.cursor, s.cursor == s.size - 1, Reading, s.Published(), [])])
    case Look(i) =>
      if i < |s.readers| && s.readers[i].phase.Reading? then
        var r := s.readers[i];
        s.(readers := s.readers[i := r.(phase := Looking(s.FirstSight(r.slot)))])
      else s
    case Taken(i) =>
      if i < |s.readers| && s.readers[i].phase.Looking? then
        var r := s.readers[i];
        s.(readers := s.readers[i := r.Looked(s.WholeSight(r.phase.first, r.slot))])
      else s
    case Advance(i) =>
      if i < |s.readers| && s.Passes(i) then s.(readers := s.readers[i := s.readers[i].Advanced(s.size)]) else s
  }

  // -------------------------------------------------------------- what every step keeps

  /** Some message from `from` on and before `begun` falls on the slot of message `r`. */
  ghost predicate WrittenBetween(size: nat, from: nat, begun: nat, r: nat)
    requires size >= 2
  {
    exists m :: from <= m < begun && Pos(size, m) == Pos(size, r)
  }

  /** What a look showed is what the ring held when it began; it is torn exactly if the slot was written meanwhile. */
  ghost predicate LookRight<T>(size: nat, log: seq<T>, stray: bool, r: nat, look: Sight<T>)
    requires size >= 2
  {
    && look.written <= |log| && look.written <= look.begun
    && if stray then look.cell == Unwritten && !look.torn
       else Shows(size, log[..look.written], r, look.cell)
            && (look.torn <==> WrittenBetween(size, look.written, look.begun, r))
  }

  ghost predicate ReaderInv<T>(size: nat, log: seq<T>, published: nat, begun: nat, r: Reader<T>)
    requires size >= 2
  {
    && r.Valid(size) && r.start <= published
    && (r.stray ==> r.looks == [] || (r.phase != Reading && !r.phase.Looking?))
    && (if r.stray then r.slot == size - 1 && |r.looks| <= 1
        else r.phase != Lost && r.slot == Pos(size, r.Position()))
    && (r.phase.Looking? ==> LookRight(size, log, r.stray, r.Position(), r.phase.first) && r.phase.first.begun <= begun)
    && forall k :: 0 <= k < |r.looks| ==> LookRight(size, log, r.stray, r.start + k, r.looks[k])
  }

  /** Where the cursor stands: on the slot of the next message, except between its two stores. */
  ghost predicate CursorInv<T>(s: System<T>)
    requires s.Valid()
  {
    if s.writer == Wrapping then Pos(s.size, s.Published()) == 0 else s.cursor == Pos(s.size, s.Published())
  }

  ghost predicate Inv<T>(s: System<T>) {
    && s.Valid() && CursorInv(s)
    && Holds(s.size, s.slots, s.log) && s.slots[s.size - 1] == Unwritten
    && forall i :: 0 <= i < |s.readers| ==> ReaderInv(s.size, s.log, s.Published(), s.Begun(), s.readers[i])
  }

  lemma LookRightLater<T>(size: nat, log: seq<T>, log': seq<T>, stray: bool, r: nat, look: Sight<T>)
    requires size >= 2 && log <= log' && LookRight(size, log, stray, r, look)
    ensures LookRight(size, log', stray, r, look)
  {
    assert log'[..look.written] == log[..look.written];
  }

  lemma ReaderSurvivesWriter<T>(size: nat, log: seq<T>, log': seq<T>, published: nat, published': nat,
                                begun: nat, begun': nat, r: Reader<T>)
    requires size >= 2 && ReaderInv(size, log, published, begun, r)
    requires log <= log' && published <= published' && begun <= begun'
    ensures ReaderInv(size, log', published', begun', r)
  {
    hide LookRight;
    forall k | 0 <= k < |r.looks| ensures LookRight(size, log', r.stray, r.start + k, r.looks[k]) {
      LookRightLater(size, log, log', r.stray, r.start + k, r.looks[k]);
    }
    if r.phase.Looking? { LookRightLater(size, log, log', r.stray, r.Position(), r.phase.first); }
  }

  lemma WriterKeepsInv<T>(s: System<T>, step: Step<T>)
    requires Inv(s) && (step.Begin? || step.Copy? || step.Move? || step.Wrap?)
    ensures Inv(Do(s, step))
  {
    hide ReaderInv, Shows, Holds;
    var t := Do(s, step);
    if step.Copy? && s.writer == Copying {
      CopyKeepsHolds(s.size, s.slots, s.log, step.body);
      assert s.slots[s.cursor := Message(|s.log|, step.body)][s.size - 1] == Unwritten;
    }
    forall j | 0 <= j < |s.readers| ensures ReaderInv(s.size, t.log, t.Published(), t.Begun(), s.readers[j]) {
      ReaderSurvivesWriter(s.size, s.log, t.log, s.Published(), t.Published(), s.Begun(), t.Begun(), s.readers[j]);
    }
  }

  lemma JoinKeepsInv<T>(s: System<T>)
    requires Inv(s)
    ensures Inv(Do(s, Join))
  {
    hide Shows, Holds;
  }

  /** A look that begins now is right as far as it has got. */
  lemma FirstSightIsRight<T>(s: System<T>, stray: bool, slot: nat, r: nat)
    requires Inv(s) && (if stray then slot == s.size - 1 else slot == Pos(s.size, r))
    ensures LookRight(s.size, s.log, stray, r, s.FirstSight(slot))
  {
    assert s.log[..|s.log|] == s.log;
    if !stray {
      assert Shows(s.size, s.log, r, s.slots[Pos(s.size, r)]);
      hide Shows;
      if s.writer == Copying && s.cursor == slot { assert Pos(s.size, |s.log|) == Pos(s.size, r); }
    }
  }

  /** The slot has not changed since the look began exactly if nothing was written to it in the meantime. */
  lemma UnchangedIff<T>(size: nat, log: seq<T>, written: nat, r: nat, first: Cell<T>, now: Cell<T>)
    requires size >= 2 && written <= |log| && Shows(size, log[..written], r, first) && Shows(size, log, r, now)
    ensures SameMessage(now, first) <==> !WrittenBetween(size, written, |log|, r)
  {
    if WrittenBetween(size, written, |log|, r) {
      var m :| written <= m < |log| && Pos(size, m) == Pos(size, r);
      assert now.Message? && now.number >= m by { if now.Message? { SamePosition(size, now.number, m); } }
    } else if now.Message? {
      assert now.number < written;
      if first.Message? { SamePosition(size, first.number, now.number); }
    }
  }

  lemma BetweenSplits(size: nat, from: nat, mid: nat, begun: nat, r: nat)
    requires size >= 2 && from <= mid <= begun
    ensures WrittenBetween(size, from, begun, r)
            <==> WrittenBetween(size, from, mid, r) || WrittenBetween(size, mid, begun, r)
  {
  }

  lemma WholeSightIsRight<T>(s: System<T>, stray: bool, slot: nat, r: nat, first: Sight<T>)
    requires Inv(s) && (if stray then slot == s.size - 1 else slot == Pos(s.size, r))
    requires LookRight(s.size, s.log, stray, r, first) && first.begun <= s.Begun()
    ensures LookRight(s.size, s.log, stray, r, s.WholeSight(first, slot))
  {
    var now := s.FirstSight(slot);
    FirstSightIsRight(s, stray, slot, r);
    if !stray {
      assert s.log[..|s.log|] == s.log;
      hide Inv, Shows;
      UnchangedIff(s.size, s.log, first.written, r, first.cell, now.cell);
      BetweenSplits(s.size, first.written, |s.log|, s.Begun(), r);
      BetweenSplits(s.size, first.written, first.begun, s.Begun(), r);
    }
  }

  lemma LookKeepsReader<T>(s: System<T>, r: Reader<T>)
    requires Inv(s) && s.Valid() && r.phase.Reading?
    requires ReaderInv(s.size, s.log, s.Published(), s.Begun(), r)
    ensures ReaderInv(s.size, s.log, s.Published(), s.Begun(), r.(phase := Looking(s.FirstSight(r.slot))))
  {
    hide LookRight, Inv;
    FirstSightIsRight(s, r.stray, r.slot, r.Position());
  }

  lemma TakenKeepsReader<T>(s: System<T>, r: Reader<T>)
    requires Inv(s) && s.Valid() && r.phase.Looking?
    requires ReaderInv(s.size, s.log, s.Published(), s.Begun(), r)
    ensures ReaderInv(s.size, s.log, s.Published(), s.Begun(), r.Looked(s.WholeSight(r.phase.first, r.slot)))
  {
    hide LookRight, Inv;
    var q := r.Looked(s.WholeSight(r.phase.first, r.slot));
    WholeSightIsRight(s, r.stray, r.slot, r.Position(), r.phase.first);
    forall k | 0 <= k < |q.looks| ensures LookRight(s.size, s.log, r.stray, r.start + k, q.looks[k]) {
      assert k < |r.looks| ==> q.looks[k] == r.looks[k];
    }
  }

  lemma ReaderKeepsInv<T>(s: System<T>, step: Step<T>)
    requires Inv(s) && (step.Look? || step.Taken? || step.Advance?)
    ensures Inv(Do(s, step))
  {
    hide Shows, Holds, LookRight;
    if step.Look? && Do(s, step) != s {
      LookKeepsReader(s, s.readers[step.reader]);
      hide ReaderInv;
    } else if step.Taken? && Do(s, step) != s {
      TakenKeepsReader(s, s.readers[step.reader]);
      hide ReaderInv;
    }
  }

  lemma StepKeepsInv<T>(s: System<T>, step: Step<T>)
    requires Inv(s)
    ensures Inv(Do(s, step))
  {
    hide Inv, Do;
    if step.Begin? || step.Copy? || step.Move? || step.Wrap? { WriterKeepsInv(s, step); }
    else if step.Join? { JoinKeepsInv(s); }
    else { ReaderKeepsInv(s, step); }
  }

  /** Any interleaving of writer and readers, from an empty ring. */
  function Run<T>(size: nat, steps: seq<Step<T>>): (s: System<T>)
    requires size >= 2
    ensures s.Valid() && s.size == size
    decreases |steps|
  {
    if steps == [] then System(size, seq(size, _ => Unwritten), 0, Idle, [], [])
    else Do(Run(size, steps[..|steps| - 1]), steps[|steps| - 1])
  }

  /** What every step keeps holds after every run. */
  lemma {:induction false} RunKeepsInv<T>(size: nat, steps: seq<Step<T>>)
    requires size >= 2
    ensures Inv(Run(size, steps))
    decreases |steps|
  {
    if steps == [] {
      EmptyHolds<T>(size, seq(size, _ => Unwritten));
    } else {
      hide Inv;
      RunKeepsInv(size, steps[..|steps| - 1]);
      StepKeepsInv(Run(size, steps[..|steps| - 1]), steps[|steps| - 1]);
    }
  }

  // -------------------------------------------------------------- staying behind the writer

  /** A reader is not ahead of what has been published; one that has not joined yet is not either. */
  ghost predicate Behind<T>(s: System<T>, i: nat)
    requires s.Valid()
  {
    i < |s.readers| ==> s.readers[i].Position() <= s.Published()
  }

  /** A reader level with the writer finds itself behind it while the cursor is on the last slot. */
  predicate Overtakes<T>(s: System<T>, step: Step<T>, i: nat)
    requires s.Valid()
  {
    && step == Advance(i) && i < |s.readers| && s.cursor == s.size - 1
    && s.Passes(i) && s.readers[i].Position() == |s.log|
  }

  lemma StepStaysBehind<T>(s: System<T>, step: Step<T>, i: nat)
    requires Inv(s) && Behind(s, i) && !Overtakes(s, step, i)
    ensures Behind(Do(s, step), i)
  {
    hide Holds, Shows, LookRight;
    if i < |s.readers| {
      assert ReaderInv(s.size, s.log, s.Published(), s.Begun(), s.readers[i]);
    }
  }

  lemma OvertakingIsAhead<T>(s: System<T>, step: Step<T>, i: nat)
    requires Inv(s) && Overtakes(s, step, i)
    ensures !Behind(Do(s, step), i)
  {
    hide Holds, Shows, LookRight;
    assert ReaderInv(s.size, s.log, s.Published(), s.Begun(), s.readers[i]);
  }

  lemma {:induction false} StaysBehind<T>(size: nat, steps: seq<Step<T>>, i: nat, n: nat)
    requires size >= 2 && n <= |steps|
    requires forall m :: 0 <= m < n ==> !Overtakes(Run(size, steps[..m]), steps[m], i)
    ensures Behind(Run(size, steps[..n]), i)
    decreases n
  {
    hide Inv, Behind, Overtakes, Do;
    if n == 0 {
      EmptyIsBehind<T>(size, i);
      assert steps[..0] == [];
    } else {
      StaysBehind(size, steps, i, n - 1);
      RunKeepsInv(size, steps[..n - 1]);
      StepStaysBehind(Run(size, steps[..n - 1]), steps[n - 1], i);
      assert steps[..n][..n - 1] == steps[..n - 1];
    }
  }

  lemma EmptyIsBehind<T>(size: nat, i: nat)
    requires size >= 2
    ensures Behind(Run<T>(size, []), i)
  {
  }

  /**
  In every interleaving, a reader is at no time ahead of the writer if and only if it never
  tests the cursor, level with the writer, between the writer's two stores to it.
  */
  lemma NeverAheadIff<T>(size: nat, steps: seq<Step<T>>, i: nat)
    requires size >= 2
    ensures (forall n :: 0 <= n <= |steps| ==> Behind(Run(size, steps[..n]), i))
            <==> (forall n :: 0 <= n < |steps| ==> !Overtakes(Run(size, steps[..n]), steps[n], i))
  {
    hide Inv, Behind, Overtakes, Do, Run;
    if forall n :: 0 <= n < |steps| ==> !Overtakes(Run(size, steps[..n]), steps[n], i) {
      forall n | 0 <= n <= |steps| ensures Behind(Run(size, steps[..n]), i) {
        StaysBehind(size, steps, i, n);
      }
    } else {
      var n :| 0 <= n < |steps| && Overtakes(Run(size, steps[..n]), steps[n], i);
      RunKeepsInv(size, steps[..n]);
      OvertakingIsAhead(Run(size, steps[..n]), steps[n], i);
      RunSnoc(size, steps, n);
      assert !Behind(Run(size, steps[..n + 1]), i);
    }
  }

  lemma RunSnoc<T>(size: nat, steps: seq<Step<T>>, n: nat)
    requires size >= 2 && n < |steps|
    ensures Run(size, steps[..n + 1]) == Do(Run(size, steps[..n]), steps[n])
  {
    assert steps[..n + 1][..n] == steps[..n];
  }

  // -------------------------------------------------------------- what a reader sees

  /**
  What one look at the slot of message `m` shows: the message itself, untorn, if and only if it was
  written before the look and the message a turn later not begun by its end; at zero lag, at first,
  the message of a whole turn before.
  */
  ghost predicate ShowsMessage<T>(size: nat, log: seq<T>, m: nat, look: Sight<T>)
    requires size >= 2
  {
    && look.written <= |log|
    && (m < look.written && look.begun <= m + (size - 1)
        <==> m < look.written && !look.torn && look.cell == Message(m, log[m]))
    && (look.written == m >= size - 1 ==> look.cell == Message(m - (size - 1), log[m - (size - 1)]))
    && (look.written == m < size - 1 ==> look.cell == Unwritten)
  }

  lemma LookOfReader<T>(size: nat, log: seq<T>, stray: bool, m: nat, look: Sight<T>)
    requires size >= 2 && LookRight(size, log, stray, m, look)
    ensures if stray then look.cell == Unwritten else ShowsMessage(size, log, m, look)
  {
    if !stray {
      ShowsItsOwn(size, log[..look.written], m, look.cell);
      hide Shows;
      if m < look.written && look.torn {
        var n :| look.written <= n < look.begun && Pos(size, n) == Pos(size, m);
        SamePosition(size, n, m);
      }
      if m < look.written <= m + (size - 1) < look.begun { PosLater(size, m, size - 1); }
    }
  }

  /**
  In every interleaving the k-th look of a reader is at the slot of message start + k, except
  that a reader which started on the last slot sees nothing there.
  */
  lemma LookShowsItsMessageIff<T>(size: nat, steps: seq<Step<T>>, i: nat, k: nat)
    requires size >= 2 && i < |Run(size, steps).readers|
    requires k < |Run(size, steps).readers[i].looks|
    ensures var s := Run(size, steps);
            var r := s.readers[i];
            if r.stray then r.looks[k].cell == Unwritten else ShowsMessage(s.size, s.log, r.start + k, r.looks[k])
  {
    hide LookRight, ShowsMessage, Holds, Run;
    var s := Run(size, steps);
    RunKeepsInv(size, steps);
    assert ReaderInv(s.size, s.log, s.Published(), s.Begun(), s.readers[i]);
    LookOfReader(s.size, s.log, s.readers[i].stray, s.readers[i].start + k, s.readers[i].looks[k]);
  }

  function Bodies<T>(cells: seq<Cell<T>>): seq<T>
    requires forall k :: 0 <= k < |cells| ==> cells[k].Message?
  {
    seq(|cells|, k requires 0 <= k < |cells| => cells[k].body)
  }

  /** Every look came when its message was in the ring, neither too early nor too late, and at its slot. */
  ghost predicate Timely<T>(size: nat, r: Reader<T>) {
    && (forall k :: 0 <= k < |r.looks| ==>
          r.looks[k].written > r.start + k && r.looks[k].begun <= r.start + k + (size - 1))
    && (r.stray ==> r.looks == [])
  }

  /** A timely reader sees consecutive messages, none of them torn: no loss, repeat or reordering. */
  ghost predicate SeesAll<T>(log: seq<T>, r: Reader<T>) {
    && (forall k :: 0 <= k < |r.looks| ==>
          !r.looks[k].torn && r.looks[k].cell.Message? && r.looks[k].cell.number == r.start + k)
    && r.start + |r.looks| <= |log|
    && Bodies(r.Seen()) == log[r.start..r.start + |r.looks|]
  }

  lemma TimelySeesAll<T>(size: nat, log: seq<T>, r: Reader<T>)
    requires size >= 2 && r.start <= |log|
    requires forall k :: 0 <= k < |r.looks| ==> LookRight(size, log, r.stray, r.start + k, r.looks[k])
    ensures Timely(size, r) <==> SeesAll(log, r)
  {
    hide LookRight;
    forall k | 0 <= k < |r.looks|
      ensures if r.stray then r.looks[k].cell == Unwritten else ShowsMessage(size, log, r.start + k, r.looks[k])
    {
      LookOfReader(size, log, r.stray, r.start + k, r.looks[k]);
    }
    if Timely(size, r) {
      if r.looks != [] { assert ShowsMessage(size, log, r.start + (|r.looks| - 1), r.looks[|r.looks| - 1]); }
    }
    if SeesAll(log, r) {
      forall k | 0 <= k < |r.looks|
        ensures !r.stray && r.looks[k].written > r.start + k && r.looks[k].begun <= r.start + k + (size - 1)
      {
        assert Bodies(r.Seen())[k] == log[r.start + k];
        SeenIsWritten(size, log, r, k);
      }
      if r.looks != [] { assert r.looks[0].cell.Message?; }
    }
  }

  lemma SeenIsWritten<T>(size: nat, log: seq<T>, r: Reader<T>, k: nat)
    requires size >= 2 && k < |r.looks| && LookRight(size, log, r.stray, r.start + k, r.looks[k])
    requires r.looks[k].cell.Message? && r.looks[k].cell.number == r.start + k
    ensures !r.stray && r.looks[k].written > r.start + k
  {
  }

  /**
  In every interleaving a reader sees exactly messages start, start + 1, ..., each in one piece, if
  and only if it is timely.
  */
  lemma TimelyReaderSeesAll<T>(size: nat, steps: seq<Step<T>>, i: nat)
    requires size >= 2 && i < |Run(size, steps).readers|
    ensures var s := Run(size, steps);
            Timely(s.size, s.readers[i]) <==> SeesAll(s.log, s.readers[i])
  {
    hide Timely, SeesAll, Shows, Holds, Run;
    var s := Run(size, steps);
    RunKeepsInv(size, steps);
    assert ReaderInv(s.size, s.log, s.Published(), s.Begun(), s.readers[i]);
    StartIsPublished(s, i);
    hide LookRight;
    TimelySeesAll(s.size, s.log, s.readers[i]);
  }

  lemma StartIsPublished<T>(s: System<T>, i: nat)
    requires Inv(s) && i < |s.readers|
    ensures s.readers[i].start <= s.Published() <= |s.log|
  {
    hide Shows, Holds, LookRight;
  }

  // -------------------------------------------------------------- catching up

  /** What reader `i` does at one slot while nobody else does anything. */
  function OneTurn<T>(i: nat): seq<Step<T>> { [Look(i), Taken(i), Advance(i)] }

  function Rounds<T>(i: nat, n: nat): (steps: seq<Step<T>>)
    decreases n
  {
    if n == 0 then [] else Rounds(i, n - 1) + OneTurn(i)
  }

  /** The reader has looked at `n` more messages of the log, each in one piece, and stands at the next. */
  function Further<T>(s: System<T>, i: nat, n: nat): (r: Reader<T>)
    requires s.Valid() && i < |s.readers| && s.readers[i].phase.Reading?
    requires s.readers[i].Position() + n <= |s.log|
  {
    var r, p := s.readers[i], s.readers[i].Position();
    r.(slot := Pos(s.size, p + n),
       looks := r.looks + seq(n, k requires 0 <= k < n => Sight(Message(p + k, s.log[p + k]), false, |s.log|, |s.log|)))
  }

  lemma TurnTakesNext<T>(s: System<T>, i: nat)
    requires Inv(s) && s.writer == Idle && i < |s.readers| && s.readers[i].phase.Reading? && !s.readers[i].stray
    requires s.readers[i].Position() < |s.log| < s.readers[i].Position() + (s.size - 1)
    ensures Do(Do(Do(s, Look(i)), Taken(i)), Advance(i)) == s.(readers := s.readers[i := Further(s, i, 1)])
  {
    hide Shows, Holds, LookRight;
    var r, p, n := s.readers[i], s.readers[i].Position(), |s.log|;
    assert ReaderInv(s.size, s.log, s.Published(), s.Begun(), r);
    SlotShows(s, p);
    PosLater(s.size, p, n - p);
    assert s.FirstSight(r.slot) == Sight(Message(p, s.log[p]), false, n, n);
    var looked := r.Looked(Sight(Message(p, s.log[p]), false, n, n));
    LookTakes(s, i, Sight(Message(p, s.log[p]), false, n, n));
    var f := Further(s, i, 1);
    assert f.looks == looked.looks;
    assert f.slot == Succ(s.size, r.slot);
    assert looked.Advanced(s.size) == f;
    var t := s.(readers := s.readers[i := looked]);
    hide Inv;
    assert Do(t, Advance(i)) == t.(readers := t.readers[i := f]);
    assert t.readers[i := f] == s.readers[i := f];
  }

  lemma LookTakes<T>(s: System<T>, i: nat, look: Sight<T>)
    requires s.Valid() && s.writer == Idle && i < |s.readers| && s.readers[i].phase.Reading?
    requires s.FirstSight(s.readers[i].slot) == look && !look.torn && look.begun == |s.log|
    ensures Do(Do(s, Look(i)), Taken(i)) == s.(readers := s.readers[i := s.readers[i].Looked(look)])
  {
    var r := s.readers[i];
    var s1 := Do(s, Look(i));
    assert s1.readers[i] == r.(phase := Looking(look));
    assert s1.WholeSight(look, r.slot) == look;
    assert s1.readers[i := r.Looked(look)] == s.readers[i := r.Looked(look)];
  }

  lemma SlotShows<T>(s: System<T>, p: nat)
    requires Inv(s) && p < |s.log| <= p + (s.size - 1)
    ensures s.slots[Pos(s.size, p)] == Message(p, s.log[p])
  {
    assert Shows(s.size, s.log, p, s.slots[Pos(s.size, p)]);
    ShowsItsOwn(s.size, s.log, p, s.slots[Pos(s.size, p)]);
  }

  lemma RunThree<T>(size: nat, steps: seq<Step<T>>, a: Step<T>, b: Step<T>, c: Step<T>)
    requires size >= 2
    ensures Run(size, steps + [a, b, c]) == Do(Do(Do(Run(size, steps), a), b), c)
  {
    hide Do, Run;
    RunTwo(size, steps, a, b);
    RunOne(size, steps + [a, b], c);
    assert steps + [a, b] + [c] == steps + [a, b, c];
  }

  /**
  Every reader that is less than a turn behind a resting writer gets all the messages up to it, in
  order and in one piece, by its own steps alone, whatever happened before.
  */
  lemma {:induction false} ReaderCatchesUp<T>(size: nat, steps: seq<Step<T>>, i: nat, n: nat)
    requires size >= 2 && i < |Run(size, steps).readers|
    requires var s := Run(size, steps);
             && s.writer == Idle && s.readers[i].phase.Reading? && !s.readers[i].stray
             && s.readers[i].Position() + n <= |s.log| < s.readers[i].Position() + (size - 1)
    ensures var s := Run(size, steps);
            Run(size, steps + Rounds(i, n)) == s.(readers := s.readers[i := Further(s, i, n)])
    decreases n
  {
    hide Run, Do, Shows, Holds, LookRight, Further;
    var s := Run(size, steps);
    RunKeepsInv(size, steps);
    if n == 0 {
      assert steps + Rounds<T>(i, 0) == steps;
      assert ReaderInv(s.size, s.log, s.Published(), s.Begun(), s.readers[i]);
      NoFurther(s, i);
    } else {
      ReaderCatchesUp(size, steps, i, n - 1);
      var before := steps + Rounds(i, n - 1);
      RunKeepsInv(size, before);
      assert steps + Rounds(i, n) == before + OneTurn(i);
      RunThree(size, before, Look(i), Taken(i), Advance(i));
      hide Inv, Rounds, OneTurn;
      FurtherByOne(s, i, n);
      TurnTakesNext(Run(size, before), i);
    }
  }

  lemma NoFurther<T>(s: System<T>, i: nat)
    requires s.Valid() && i < |s.readers| && s.readers[i].phase.Reading? && s.readers[i].Position() <= |s.log|
    requires s.readers[i].slot == Pos(s.size, s.readers[i].Position())
    ensures s.readers[i := Further(s, i, 0)] == s.readers
  {
    var r := s.readers[i];
    assert Further(s, i, 0).looks == r.looks;
  }

  lemma FurtherByOne<T>(s: System<T>, i: nat, n: nat)
    requires s.Valid() && i < |s.readers| && s.readers[i].phase.Reading? && n > 0
    requires s.readers[i].Position() + n <= |s.log|
    ensures var t := s.(readers := s.readers[i := Further(s, i, n - 1)]);
            && t.Valid() && t.readers[i].phase.Reading? && t.readers[i].stray == s.readers[i].stray
            && t.readers[i].Position() == s.readers[i].Position() + (n - 1)
            && t.readers[i := Further(t, i, 1)] == s.readers[i := Further(s, i, n)]
  {
    var t := s.(readers := s.readers[i := Further(s, i, n - 1)]);
    assert Further(t, i, 1).looks == Further(s, i, n).looks;
  }

  // -------------------------------------------------------------- between the two stores

  /** `k` messages written one after the other. */
  function Writing<T>(x: T, k: nat): (steps: seq<Step<T>>)
  {
    if k == 0 then [] else Writing(x, k - 1) + [Begin, Copy(x)] + [Move]
  }

  lemma {:induction false} AfterWriting<T>(size: nat, x: T, k: nat)
    requires size >= 2 && k <= size - 2
    ensures var s := Run(size, Writing(x, k));
            s.cursor == k && s.writer == Idle && |s.log| == k && s.readers == [] && s.slots[size - 1] == Unwritten
    decreases k
  {
    if k > 0 {
      AfterWriting(size, x, k - 1);
      RunTwo(size, Writing(x, k - 1), Begin, Copy(x));
      RunOne(size, Writing(x, k - 1) + [Begin, Copy(x)], Move);
      hide Run;
      var s := Run(size, Writing(x, k - 1));
      assert Do(s, Begin).writer == Copying;
    }
  }

  lemma RunOne<T>(size: nat, steps: seq<Step<T>>, a: Step<T>)
    requires size >= 2
    ensures Run(size, steps + [a]) == Do(Run(size, steps), a)
  {
    hide Do;
    assert (steps + [a])[..|steps|] == steps;
  }

  lemma RunTwo<T>(size: nat, steps: seq<Step<T>>, a: Step<T>, b: Step<T>)
    requires size >= 2
    ensures Run(size, steps + [a, b]) == Do(Do(Run(size, steps), a), b)
  {
    hide Do;
    var all := steps + [a, b];
    assert all[..|steps|] == steps && all[..|all| - 1] == steps + [a];
    assert (steps + [a])[..|steps|] == steps;
  }

  /** One message written, and one look of reader `i`. */
  function Filled<T>(s: System<T>, x: T): (t: System<T>)
    requires s.Valid()
    ensures t.Valid() && t.size == s.size
  {
    Do(Do(Do(s, Begin), Copy(x)), Move)
  }

  function LookedBy<T>(s: System<T>, i: nat): (t: System<T>)
    requires s.Valid()
    ensures t.Valid() && t.size == s.size
  {
    Do(Do(s, Look(i)), Taken(i))
  }

  lemma RunFilled<T>(size: nat, steps: seq<Step<T>>, x: T)
    requires size >= 2
    ensures Run(size, steps + [Begin, Copy(x)] + [Move]) == Filled(Run(size, steps), x)
  {
    hide Do, Run;
    RunTwo(size, steps, Begin, Copy(x));
    RunOne(size, steps + [Begin, Copy(x)], Move);
  }

  lemma RunLookedBy<T>(size: nat, steps: seq<Step<T>>, a: Step<T>, i: nat)
    requires size >= 2
    ensures Run(size, steps + [a] + [Look(i), Taken(i)]) == LookedBy(Do(Run(size, steps), a), i)
  {
    hide Do, Run;
    RunOne(size, steps, a);
    RunTwo(size, steps + [a], Look(i), Taken(i));
  }

  /** The writer about to fill the slot before the last, with nobody following. */
  ghost predicate AtSlotBeforeLast<T>(s: System<T>) {
    s.Valid() && s.cursor == s.size - 2 && s.writer == Idle && |s.log| == s.size - 2 && s.readers == []
    && s.slots[s.size - 1] == Unwritten
  }

  /** One reader, `pos` messages on and done with its look, and the cursor on the last slot. */
  ghost predicate InTheGap<T>(s: System<T>, slot: nat, pos: nat) {
    && s.Valid() && s.writer == Wrapping && |s.log| == s.size - 1 && |s.readers| == 1
    && var r := s.readers[0];
       r.slot == slot && !r.stray && r.phase == Waiting && r.Position() == pos
  }

  lemma LookOfOne<T>(s: System<T>)
    requires s.Valid() && |s.readers| == 1 && s.readers[0].phase.Reading?
    ensures var r, t := s.readers[0], LookedBy(s, 0);
            && t == s.(readers := t.readers) && |t.readers| == 1
            && t.readers[0] == r.(phase := Waiting, looks := t.readers[0].looks)
            && |t.readers[0].looks| == |r.looks| + 1
            && (|r.looks| == 0 ==> t.readers[0].looks[0].cell == s.slots[r.slot])
  {
  }

  lemma FilledIdle<T>(s: System<T>, x: T)
    requires s.Valid() && s.writer == Idle
    ensures var t := Filled(s, x);
            && t.readers == s.readers && t.log == s.log + [x] && t.cursor == s.cursor + 1
            && t.writer == (if t.cursor == s.size - 1 then Wrapping else Idle)
            && t.slots == s.slots[s.cursor := Message(|s.log|, x)]
  {
  }

  lemma FollowIntoTheGap<T>(s: System<T>, x: T)
    requires AtSlotBeforeLast(s)
    ensures var t := Filled(LookedBy(Do(s, Join), 0), x);
            t.size == s.size && InTheGap(t, s.size - 2, s.size - 2)
  {
    var s1 := Do(s, Join);
    assert s1.readers == [Reader(s.size - 2, false, Reading, s.size - 2, [])];
    LookOfOne(s1);
    FilledIdle(LookedBy(s1, 0), x);
    hide LookedBy, Filled;
  }

  lemma PassInTheGap<T>(s: System<T>, slot: nat, pos: nat)
    requires InTheGap(s, slot, pos) && slot < s.size - 1
    ensures var t := LookedBy(Do(s, Advance(0)), 0);
            t.size == s.size && InTheGap(t, Succ(s.size, slot), pos + 1)
  {
    var s1 := Do(s, Advance(0));
    assert s1.readers == [s.readers[0].(phase := Reading, slot := Succ(s.size, slot))];
    LookOfOne(s1);
    hide LookedBy;
  }

  /**
  In a ring of any size a reader can get ahead of the writer: it follows the writer onto the
  slot before the last, and tests the cursor twice while it is on the last.
  */
  lemma ReaderCanOvertake<T>(size: nat, x: T) returns (steps: seq<Step<T>>)
    requires size >= 2
    ensures var s := Run(size, steps);
            |s.readers| == 1 && !s.readers[0].stray && s.readers[0].Position() == s.Published() + 1
  {
    AfterWriting(size, x, size - 2);
    var w := Writing(x, size - 2);
    var joined := w + [Join] + [Look(0), Taken(0)];
    var gap := joined + [Begin, Copy(x)] + [Move];
    var once := gap + [Advance(0)] + [Look(0), Taken(0)];
    steps := once + [Advance(0)] + [Look(0), Taken(0)];
    FollowIntoTheGap(Run(size, w), x);
    hide Run, Do, LookedBy, Filled;
    RunLookedBy(size, w, Join, 0);
    RunFilled(size, joined, x);
    PassInTheGap(Run(size, gap), size - 2, size - 2);
    RunLookedBy(size, gap, Advance(0), 0);
    PassInTheGap(Run(size, once), Succ(size, size - 2), size - 1);
    RunLookedBy(size, once, Advance(0), 0);
  }

  /** One reader that started on the last slot and saw nothing there. */
  ghost predicate OneStray<T>(s: System<T>, phase: Phase<T>) {
    && s.Valid() && |s.readers| == 1
    && var r := s.readers[0];
       r.stray && r.slot == s.size - 1 && r.phase == phase && |r.looks| == 1 && r.looks[0].cell == Unwritten
  }

  lemma JoinInTheGap<T>(s: System<T>, x: T)
    requires AtSlotBeforeLast(s)
    ensures var t := LookedBy(Do(Filled(s, x), Join), 0);
            t.writer == Wrapping && OneStray(t, Waiting)
  {
    FilledIdle(s, x);
    hide Filled;
    var s3 := Do(Filled(s, x), Join);
    assert s3.readers == [Reader(s.size - 1, true, Reading, s.size - 1, [])];
    LookOfOne(s3);
    hide LookedBy;
  }

  lemma LeaveTheRing<T>(s: System<T>)
    requires s.writer == Wrapping && OneStray(s, Waiting)
    ensures OneStray(Do(Do(s, Wrap), Advance(0)), Lost)
  {
    assert Do(s, Wrap).Passes(0);
  }

  /** A session that starts between the two stores starts on the last slot, sees nothing and leaves the ring. */
  lemma JoinCanGoAstray<T>(size: nat, x: T) returns (steps: seq<Step<T>>)
    requires size >= 2
    ensures OneStray(Run(size, steps), Lost)
  {
    AfterWriting(size, x, size - 2);
    var w := Writing(x, size - 2);
    var full := w + [Begin, Copy(x)] + [Move];
    var joined := full + [Join] + [Look(0), Taken(0)];
    steps := joined + [Wrap, Advance(0)];
    JoinInTheGap(Run(size, w), x);
    hide Run, Do, LookedBy, Filled;
    RunFilled(size, w, x);
    RunLookedBy(size, full, Join, 0);
    LeaveTheRing(Run(size, joined));
    RunTwo(size, joined, Wrap, Advance(0));
  }
}
