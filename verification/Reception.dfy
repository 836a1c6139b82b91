/**
From the receive manager to the FIFO: what the FIFO's cells lead to when the ring's writer comes
to read them.  `on_receive_connection_cb` of `src/socket/dmmr_socket.c` releases a slot before it
queues a reference to it, so the slot may have been filled again by then, and the cell that
`get_struct_node_buffer` finds for the reference may still be in use.
*/
module Reception {
  import opened RecvManager
  import opened CircleBuffer
  import WordMemory

  /** The cells allocated for the FIFO. */
  const LINKS := 0x400

  type LinkIndex = i: nat | i < 0x400

  /** What a cell points to; the number is that of the message it was queued for, for the proofs only. */
  datatype Link = Null | To(slot: Index, number: nat)

  /**
  One connection: `fd` of the nodes it receives, its manager, what its slots hold, the cells and how
  many were taken when none looked free, the cells in the FIFO and in the writer's batch, and what
  was published, with the number of messages received by the time it was read.
  */
  datatype Connection<T> = Connection(fd: int, manager: State, slots: seq<Cell<T>>, links: seq<Link>, extra: nat,
                                      received: seq<T>, fifo: seq<LinkIndex>, batch: seq<LinkIndex>,
                                      published: seq<Cell<T>>, readAt: seq<nat>, intact: bool) {
    ghost predicate Sized() { manager.Valid() && |slots| == SLOTS && |links| == LINKS }
  }

  // -------------------------------------------------------------- the cells of the FIFO

  /** A cell counts as taken by the `fd` of the node it leads to, which is 0 for a stream's nodes. */
  predicate Taken<T>(c: Connection<T>, link: Link)
    requires |c.slots| == SLOTS
  {
    link.To? && c.slots[link.slot].Message? && c.fd != 0
  }

  function FirstFree<T>(c: Connection<T>, p: nat): (q: nat)
    requires |c.slots| == SLOTS && |c.links| == LINKS && p <= LINKS
    ensures p <= q <= LINKS
    decreases LINKS - p
  {
    if p == LINKS || !Taken(c, c.links[p]) then p else FirstFree(c, p + 1)
  }

  /** A cell, and whether the array was moved to make room, with cells of it in the FIFO. */
  datatype Grab = Grab(link: LinkIndex, extra: nat, moved: bool)

  /** `get_struct_node_buffer`, with a NULL pointer counted as free. */
  function GetLink<T>(c: Connection<T>): Grab
    requires |c.slots| == SLOTS && |c.links| == LINKS
  {
    var p := FirstFree(c, 0);
    if p < LINKS then Grab(p, c.extra, false)
    else if c.extra < LINKS then Grab(c.extra, c.extra + 1, false)
    else Grab(0, c.extra + 1, true)
  }

  /**
  One turn of the loop of `on_receive_connection_cb`: a cell, then a busy slot, if there is one.
  The FIFO stays intact unless the cell is in it already, or cells were moved.
  */
  function Queue<T>(c: Connection<T>, number: nat): (d: Connection<T>)
    requires c.Sized()
    ensures d.Sized()
  {
    var g := GetLink(c);
    var (m, released) := RecvManager.Do(c.manager, GetBusy);
    if !released.Released? then c.(manager := m, extra := g.extra, intact := c.intact && !g.moved)
    else c.(manager := m, extra := g.extra, intact := c.intact && !g.moved && g.link !in c.fifo,
            links := c.links[g.link := To(released.slot, number)], fifo := c.fifo + [g.link])
  }

  // -------------------------------------------------------------- runs

  datatype Action<T> =
    | Receive(body: T)  // get_free_node, the read into its slot, and on_receive_connection_cb
    | Drain             // the writer moves the first cell of the FIFO to its batch
    | PublishNext       // the writer reads what the next cell of its batch leads to

  /** What a cell leads to now. */
  function Lead<T>(c: Connection<T>, link: LinkIndex): Cell<T>
    requires c.Sized()
  {
    match c.links[link]
    case Null => Unwritten
    case To(slot, _) => c.slots[slot]
  }

  /** `get_free_node`, and the read into the slot. */
  function Fill<T>(c: Connection<T>, body: T): (r: (Connection<T>, bool))
    requires c.Sized()
    ensures r.0.Sized()
  {
    var (m, taken) := RecvManager.Do(c.manager, GetFree);
    if !taken.Allocated? then (c, false)
    else
      var slots := c.slots[taken.slot := Message(|c.received|, body)];
      (c.(manager := m, slots := slots, received := c.received + [body]), true)
  }

  /** With one slot filled the loop ends on its second turn.  Once the FIFO is broken nothing more is said. */
  function Act<T>(c: Connection<T>, a: Action<T>): (d: Connection<T>)
    requires c.Sized()
    ensures d.Sized()
  {
    if !c.intact then c
    else
      match a
      case Receive(body) =>
        var (d, ok) := Fill(c, body);
        if ok then Queue(Queue(d, |c.received|), |c.received|) else c
      case Drain => if c.fifo == [] then c else c.(fifo := c.fifo[1..], batch := c.batch + [c.fifo[0]])
      case PublishNext =>
        if c.batch == [] then c
        else c.(batch := c.batch[1..], published := c.published + [Lead(c, c.batch[0])],
                readAt := c.readAt + [|c.received|])
  }

  function Actions<T>(fd: int, actions: seq<Action<T>>): (c: Connection<T>)
    ensures c.Sized()
    decreases |actions|
  {
    if |actions| == 0 then
      Connection(fd, Initial(), seq(SLOTS, _ => Unwritten), seq(LINKS, _ => Null), 0, [], [], [], [], [], true)
    else Act(Actions(fd, actions[..|actions| - 1]), actions[|actions| - 1])
  }

  // -------------------------------------------------------------- which cell a message gets

  /** As long as the array of cells is not moved. */
  predicate Numbered(fd: int, j: nat) { fd == 0 || j < 0x600 }

  /**
  All messages of a stream get the first cell.  Datagrams get the cells in order and, when all are
  taken, every second one again: each reception takes one more cell for the turn that finds no slot.
  */
  function LinkOf(fd: int, j: nat): LinkIndex
    requires Numbered(fd, j)
  {
    if fd == 0 then 0 else if j < LINKS then j else 2 * (j - LINKS) + 1
  }

  /** For how many receptions a cell leads to its message. */
  function Window(fd: int): nat { if fd == 0 then 1 else SLOTS }

  /** What slot `p` holds is the last of the messages that fall on it. */
  ghost predicate Latest<T>(received: seq<T>, p: nat, cell: Cell<T>) {
    match cell
    case Unwritten => forall j :: 0 <= j < |received| ==> j % SLOTS != p
    case Message(j, body) => j < |received| <= j + SLOTS && j % SLOTS == p && body == received[j]
  }

  /** Cell `p` refers to the last of the messages that were given it. */
  ghost predicate Refers(fd: int, count: nat, p: nat, link: Link)
    requires forall j :: 0 <= j < count ==> Numbered(fd, j)
  {
    match link
    case Null => forall j :: 0 <= j < count ==> LinkOf(fd, j) != p
    case To(slot, j) =>
      && j < count && slot == j % SLOTS && LinkOf(fd, j) == p
      && forall i :: j < i < count ==> LinkOf(fd, i) != p
  }

  function ExtraAfter(fd: int, count: nat): nat { if fd == 0 || count < LINKS then 0 else 2 * (count - LINKS) + 1 }

  ghost predicate LinksInv(fd: int, links: seq<Link>, extra: nat, count: nat) {
    && |links| == LINKS && (fd == 0 || count < 0x600) && extra == ExtraAfter(fd, count)
    && forall p :: 0 <= p < LINKS ==> Refers(fd, count, p, links[p])
  }

  /** The j-th cell published led to its message exactly when it was read in time. */
  ghost predicate Right<T>(fd: int, received: seq<T>, j: nat, cell: Cell<T>, at: nat) {
    j < at <= |received| && (cell == Message(j, received[j]) <==> at <= j + Window(fd))
  }

  ghost predicate AllRight<T>(c: Connection<T>) {
    |c.readAt| == |c.published|
    && forall j :: 0 <= j < |c.published| ==> Right(c.fd, c.received, j, c.published[j], c.readAt[j])
  }

  predicate IsLinkOf(fd: int, j: nat, link: LinkIndex) { Numbered(fd, j) && link == LinkOf(fd, j) }

  ghost predicate Queued(fd: int, items: seq<LinkIndex>, from: nat) {
    forall i :: 0 <= i < |items| ==> IsLinkOf(fd, from + i, items[i])
  }

  ghost predicate SlotsInv<T>(received: seq<T>, slots: seq<Cell<T>>) {
    |slots| == SLOTS && forall p :: 0 <= p < SLOTS ==> Latest(received, p, slots[p])
  }

  ghost predicate Inv<T>(c: Connection<T>) {
    && c.Sized() && (forall p: Index :: !c.manager.busy[p])
    && c.manager.nextFree == c.manager.nextBusy == |c.received| % SLOTS
    && |c.published| + |c.batch| + |c.fifo| == |c.received|
    && Queued(c.fd, c.batch, |c.published|)
    && Queued(c.fd, c.fifo, |c.published| + |c.batch|)
    && SlotsInv(c.received, c.slots)
    && LinksInv(c.fd, c.links, c.extra, |c.received|)
    && AllRight(c)
  }

  /** With all slots free, a slot is allocated and released again in turn, and then none is busy. */
  lemma OneInOneOut(m: State, p: Index)
    requires m.Valid() && (forall q: Index :: !m.busy[q]) && m.nextFree == m.nextBusy == p
    ensures var (m1, e1) := RecvManager.Do(m, GetFree);
            var (m2, e2) := RecvManager.Do(m1, GetBusy);
            && e1 == Allocated(p) && e2 == Released(p) && RecvManager.Do(m2, GetBusy) == (m2, Empty)
            && (forall q: Index :: !m2.busy[q]) && m2.nextFree == m2.nextBusy == Next(p)
  {
    ScanTakesFirst(m.busy, false, p);
    var m1 := RecvManager.Do(m, GetFree).0;
    ScanTakesFirst(m1.busy, true, p);
    var m2 := RecvManager.Do(m1, GetBusy).0;
    ScanIsNearest(m2.busy, true, m2.nextBusy, 0);
  }

  lemma {:induction false} FirstFreeFrom<T>(c: Connection<T>, p: nat, q: nat)
    requires |c.slots| == SLOTS && |c.links| == LINKS && p <= q <= LINKS
    requires forall i :: p <= i < q ==> Taken(c, c.links[i])
    requires q == LINKS || !Taken(c, c.links[q])
    ensures FirstFree(c, p) == q
    decreases q - p
  {
    if p < q { FirstFreeFrom(c, p + 1, q); }
  }

  ghost predicate LeadsSomewhere<T>(slots: seq<Cell<T>>, links: seq<Link>) {
    |slots| == SLOTS && forall p :: 0 <= p < |links| && links[p].To? ==> slots[links[p].slot].Message?
  }

  /** The first free cell: for a stream the first, else the first that was never taken. */
  lemma FirstFreeIs<T>(c: Connection<T>, count: nat)
    requires |c.links| == LINKS && (c.fd == 0 || count <= 0x600) && LeadsSomewhere(c.slots, c.links)
    requires forall p :: 0 <= p < LINKS ==> Refers(c.fd, count, p, c.links[p])
    ensures FirstFree(c, 0) == if c.fd == 0 then 0 else if count < LINKS then count else LINKS
  {
    var q := if c.fd == 0 then 0 else if count < LINKS then count else LINKS;
    forall i | 0 <= i < q ensures Taken(c, c.links[i]) {
      assert LinkOf(c.fd, i) == i;
    }
    FirstFreeFrom(c, 0, q);
  }

  lemma RefersNext(fd: int, count: nat, p: nat, link: Link)
    requires (fd == 0 || count < 0x600) && Refers(fd, count, p, link)
    ensures Refers(fd, count + 1, p, if p == LinkOf(fd, count) then To(count % SLOTS, count) else link)
  {
  }

  lemma SlotsNext<T>(received: seq<T>, slots: seq<Cell<T>>, body: T)
    requires SlotsInv(received, slots)
    ensures SlotsInv(received + [body], slots[|received| % SLOTS := Message(|received|, body)])
  {
    var later := slots[|received| % SLOTS := Message(|received|, body)];
    forall p | 0 <= p < SLOTS ensures Latest(received + [body], p, later[p]) {
      assert Latest(received, p, slots[p]);
    }
  }

  lemma LinksLead<T>(fd: int, received: seq<T>, slots: seq<Cell<T>>, links: seq<Link>, count: nat)
    requires SlotsInv(received, slots) && count <= |received| && |links| == LINKS
    requires (fd == 0 || count <= 0x600) && forall p :: 0 <= p < LINKS ==> Refers(fd, count, p, links[p])
    ensures LeadsSomewhere(slots, links)
  {
    forall p | 0 <= p < LINKS && links[p].To? ensures slots[links[p].slot].Message? {
      assert Refers(fd, count, p, links[p]);
      assert Latest(received, links[p].slot, slots[links[p].slot]);
    }
  }

  /** The first turn of the loop gives the message its cell. */
  lemma FirstTurn<T>(c: Connection<T>, number: nat, slot: Index, m2: State)
    requires c.Sized() && number < |c.received| && slot == number % SLOTS && SlotsInv(c.received, c.slots)
    requires LinksInv(c.fd, c.links, c.extra, number)
    requires RecvManager.Do(c.manager, GetBusy) == (m2, Released(slot))
    ensures var d, link := Queue(c, number), LinkOf(c.fd, number);
            && d == c.(manager := m2, extra := d.extra, links := d.links, fifo := c.fifo + [link],
                       intact := c.intact && link !in c.fifo)
            && |d.links| == LINKS && (forall p :: 0 <= p < LINKS ==> Refers(c.fd, number + 1, p, d.links[p]))
            && d.extra == if c.fd == 0 || number < LINKS then 0 else c.extra + 1
  {
    LinksLead(c.fd, c.received, c.slots, c.links, number);
    FirstFreeIs(c, number);
    var d := Queue(c, number);
    hide Refers, RecvManager.Do;
    forall p | 0 <= p < LINKS ensures Refers(c.fd, number + 1, p, d.links[p]) {
      RefersNext(c.fd, number, p, c.links[p]);
    }
  }

  /** The second takes one more cell if all are taken, and moves the array if there are no more. */
  lemma SecondTurn<T>(c: Connection<T>, number: nat)
    requires c.Sized() && number < |c.received| && SlotsInv(c.received, c.slots) && (c.fd == 0 || number < 0x600)
    requires forall p :: 0 <= p < LINKS ==> Refers(c.fd, number + 1, p, c.links[p])
    requires c.extra == if c.fd == 0 || number < LINKS then 0 else ExtraAfter(c.fd, number) + 1
    requires RecvManager.Do(c.manager, GetBusy) == (c.manager, RecvManager.Empty)
    ensures var d := Queue(c, number);
            && d == c.(extra := d.extra, intact := c.intact && (c.fd == 0 || number < 0x5FF))
            && (d.intact ==> LinksInv(d.fd, d.links, d.extra, number + 1))
  {
    LinksLead(c.fd, c.received, c.slots, c.links, number + 1);
    FirstFreeIs(c, number + 1);
  }

  /** A reception: where everything is afterwards, and whether the FIFO is still intact. */
  lemma ReceiveResult<T>(c: Connection<T>, body: T)
    requires c.intact && Inv(c)
    ensures var d, n := Act(c, Receive(body)), |c.received|;
            && d.fd == c.fd && d.received == c.received + [body] && d.fifo == c.fifo + [LinkOf(c.fd, n)]
            && d.batch == c.batch && d.published == c.published && d.readAt == c.readAt
            && (forall p: Index :: !d.manager.busy[p]) && d.manager.nextFree == d.manager.nextBusy == (n + 1) % SLOTS
            && SlotsInv(d.received, d.slots)
            && (d.intact <==> LinkOf(c.fd, n) !in c.fifo && (c.fd == 0 || n < 0x5FF))
            && (d.intact ==> LinksInv(d.fd, d.links, d.extra, n + 1))
  {
    var n := |c.received|;
    var m2 := FillResult(c, body);
    var c1 := Fill(c, body).0;
    hide *;
    FirstTurn(c1, n, n % SLOTS, m2);
    SecondStarts(c1, n);
    SecondTurn(Queue(c1, n), n);
    ReceiveIsTwoTurns(c, body);
  }

  lemma FillResult<T>(c: Connection<T>, body: T) returns (m2: State)
    requires Inv(c)
    ensures var n, (c1, ok) := |c.received|, Fill(c, body);
            && ok && c1 == c.(manager := c1.manager, slots := c1.slots, received := c.received + [body])
            && SlotsInv(c1.received, c1.slots) && LinksInv(c1.fd, c1.links, c1.extra, n)
            && RecvManager.Do(c1.manager, GetBusy) == (m2, Released(n % SLOTS))
            && m2.Valid() && RecvManager.Do(m2, GetBusy) == (m2, RecvManager.Empty)
            && (forall p: Index :: !m2.busy[p]) && m2.nextFree == m2.nextBusy == (n + 1) % SLOTS
  {
    var n := |c.received|;
    OneInOneOut(c.manager, n % SLOTS);
    SlotsNext(c.received, c.slots, body);
    hide SlotsInv, LinksInv;
    m2 := RecvManager.Do(Fill(c, body).0.manager, GetBusy).0;
  }

  lemma ReceiveIsTwoTurns<T>(c: Connection<T>, body: T)
    requires c.Sized() && c.intact && Fill(c, body).1
    ensures var n := |c.received|; Act(c, Receive(body)) == Queue(Queue(Fill(c, body).0, n), n)
  {
  }

  lemma SecondStarts<T>(c: Connection<T>, number: nat)
    requires LinksInv(c.fd, c.links, c.extra, number)
    ensures c.extra == ExtraAfter(c.fd, number) && (c.fd == 0 || number < 0x600)
  {
  }

  /** The last message that was given the cell of message j. */
  lemma LastOnLink(fd: int, links: seq<Link>, extra: nat, count: nat, j: nat) returns (k: nat)
    requires LinksInv(fd, links, extra, count) && j < count
    ensures j <= k < count && Numbered(fd, j) && links[LinkOf(fd, j)] == To(k % SLOTS, k)
    ensures if fd == 0 then k == count - 1 else k == j || k >= j + SLOTS
  {
    var p := LinkOf(fd, j);
    assert Refers(fd, count, p, links[p]);
    k := links[p].number;
    if fd == 0 { assert LinkOf(fd, count - 1) == p; }
  }

  lemma LatestIs<T>(received: seq<T>, slots: seq<Cell<T>>, j: nat, k: nat)
    requires SlotsInv(received, slots) && j <= k < |received|
    ensures slots[k % SLOTS] == Message(j, received[j]) <==> j == k && |received| <= j + SLOTS
  {
    assert Latest(received, k % SLOTS, slots[k % SLOTS]);
  }

  /** The cell given to message j leads to it as long as neither the cell nor the slot is used again. */
  lemma LeadIs<T>(c: Connection<T>, j: nat)
    requires Inv(c) && j < |c.received|
    ensures Numbered(c.fd, j)
    ensures Lead(c, LinkOf(c.fd, j)) == Message(j, c.received[j]) <==> |c.received| <= j + Window(c.fd)
  {
    hide SlotsInv, LinksInv, Queued, AllRight, LinkOf;
    var k := LastOnLink(c.fd, c.links, c.extra, |c.received|, j);
    LatestIs(c.received, c.slots, j, k);
  }

  lemma RightLater<T>(fd: int, received: seq<T>, body: T, j: nat, cell: Cell<T>, at: nat)
    requires Right(fd, received, j, cell, at)
    ensures Right(fd, received + [body], j, cell, at)
  {
  }

  lemma QueuedSnoc(fd: int, items: seq<LinkIndex>, from: nat)
    requires Queued(fd, items, from) && Numbered(fd, from + |items|)
    ensures Queued(fd, items + [LinkOf(fd, from + |items|)], from)
  {
    var n := |items|;
    var link := LinkOf(fd, from + n);
    assert IsLinkOf(fd, from + n, link);
    hide IsLinkOf;
    var longer := items + [link];
    forall i | 0 <= i < |longer| ensures IsLinkOf(fd, from + i, longer[i]) {
      if i < n { assert IsLinkOf(fd, from + i, items[i]); }
    }
  }

  lemma QueuedTail(fd: int, items: seq<LinkIndex>, from: nat)
    requires Queued(fd, items, from) && items != []
    ensures IsLinkOf(fd, from, items[0]) && Queued(fd, items[1..], from + 1)
  {
    hide IsLinkOf;
    var rest := items[1..];
    assert from + 0 == from && IsLinkOf(fd, from + 0, items[0]);
    forall i | 0 <= i < |rest| ensures IsLinkOf(fd, from + 1 + i, rest[i]) {
      var k := i + 1;
      assert IsLinkOf(fd, from + k, items[k]) && from + k == from + 1 + i;
    }
  }

  /** What was published stays right even when the FIFO breaks. */
  ghost predicate Sound<T>(c: Connection<T>) {
    && (c.intact ==> Inv(c))
    && AllRight(c)
  }

  lemma ReceiveKeepsSound<T>(c: Connection<T>, body: T)
    requires c.intact && Inv(c)
    ensures Sound(Act(c, Receive(body)))
  {
    hide Act, Right, SlotsInv, LinksInv, Queued, LinkOf;
    var d, n := Act(c, Receive(body)), |c.received|;
    SecondStarts(c, n);
    ReceiveResult(c, body);
    QueuedSnoc(c.fd, c.fifo, |c.published| + |c.batch|);
    forall j | 0 <= j < |d.published| ensures Right(d.fd, d.received, j, d.published[j], d.readAt[j]) {
      RightLater(c.fd, c.received, body, j, c.published[j], c.readAt[j]);
    }
  }

  lemma ActKeepsSound<T>(c: Connection<T>, a: Action<T>)
    requires c.Sized() && Sound(c)
    ensures Sound(Act(c, a))
  {
    hide Right, SlotsInv, LinksInv, Queued, Lead;
    if c.intact {
      match a
      case Receive(body) => ReceiveKeepsSound(c, body);
      case Drain =>
        if c.fifo != [] {
          QueuedTail(c.fd, c.fifo, |c.published| + |c.batch|);
          QueuedSnoc(c.fd, c.batch, |c.published|);
        }
      case PublishNext =>
        if c.batch != [] {
          QueuedTail(c.fd, c.batch, |c.published|);
          PublishIsRight(c);
        }
    }
  }

  lemma PublishIsRight<T>(c: Connection<T>)
    requires Inv(c) && c.batch != []
    ensures Right(c.fd, c.received, |c.published|, Lead(c, c.batch[0]), |c.received|)
  {
    QueuedTail(c.fd, c.batch, |c.published|);
    LeadIs(c, |c.published|);
  }

  lemma NothingYet<T>(fd: int)
    ensures Inv(Actions<T>(fd, []))
  {
  }

  lemma {:induction false} ActionsKeepSound<T>(fd: int, actions: seq<Action<T>>)
    ensures Sound(Actions(fd, actions)) && Actions(fd, actions).fd == fd
    decreases |actions|
  {
    hide Inv, Right;
    if |actions| == 0 {
      NothingYet<T>(fd);
    } else {
      var c := Actions(fd, actions[..|actions| - 1]);
      ActionsKeepSound(fd, actions[..|actions| - 1]);
      hide Sound;
      ActKeepsSound(c, actions[|actions| - 1]);
    }
  }

  // -------------------------------------------------------------- what the writer gets

  /**
  At every point of every run in which the FIFO is still intact: the cell queued for the j-th
  message received, wherever it is by now, leads to that message if and only if no more than 256
  messages have been received from then on, or none after it on a stream.
  */
  lemma CellLeadsToMessageIff<T>(fd: int, actions: seq<Action<T>>, j: nat)
    requires Actions(fd, actions).intact && j < |Actions(fd, actions).received|
    ensures Numbered(fd, j)
    ensures var c := Actions(fd, actions);
            Lead(c, LinkOf(fd, j)) == Message(j, c.received[j]) <==> |c.received| <= j + Window(fd)
  {
    hide Actions, Inv, Lead;
    ActionsKeepSound(fd, actions);
    LeadIs(Actions(fd, actions), j);
  }

  /**
  So in every run, the j-th message published is the j-th message received if and only if it was
  read in time.
  */
  lemma PublishedIsReceivedIff<T>(fd: int, actions: seq<Action<T>>, j: nat)
    requires j < |Actions(fd, actions).published|
    ensures var c := Actions(fd, actions);
            && j < |c.received| && |c.readAt| == |c.published|
            && (c.published[j] == Message(j, c.received[j]) <==> c.readAt[j] <= j + Window(fd))
  {
    hide Actions, Inv;
    ActionsKeepSound(fd, actions);
    var c := Actions(fd, actions);
    assert Right(fd, c.received, j, c.published[j], c.readAt[j]);
  }

  /** And if the writer keeps up, what it publishes is what was received, in order. */
  lemma PromptWriterPublishesReceived<T>(fd: int, actions: seq<Action<T>>)
    requires var at := Actions(fd, actions).readAt; forall j :: 0 <= j < |at| ==> at[j] <= j + Window(fd)
    ensures var c := Actions(fd, actions);
            && |c.published| <= |c.received|
            && (forall j :: 0 <= j < |c.published| ==> c.published[j].Message?)
            && Bodies(c.published) == c.received[..|c.published|]
  {
    hide Actions;
    var c := Actions(fd, actions);
    forall j | 0 <= j < |c.published| ensures j < |c.received| && c.published[j] == Message(j, c.received[j]) {
      PublishedIsReceivedIff(fd, actions, j);
    }
    if |c.published| > 0 { PublishedIsReceivedIff(fd, actions, |c.published| - 1); }
  }

  // -------------------------------------------------------------- the writer's steps

  function Repeat<T>(a: Action<T>, n: nat): (actions: seq<Action<T>>)
    ensures |actions| == n
    decreases n
  {
    if n == 0 then [] else Repeat(a, n - 1) + [a]
  }

  lemma ActionsMore<T>(fd: int, actions: seq<Action<T>>, more: seq<Action<T>>, a: Action<T>)
    ensures Actions(fd, actions + (more + [a])) == Act(Actions(fd, actions + more), a)
  {
    hide Act;
    var all := actions + (more + [a]);
    assert all[..|all| - 1] == actions + more;
  }

  /** As long as the FIFO is intact, n drains take its first n cells and put them behind the batch. */
  lemma {:induction false} DrainsTakeTheFirst<T>(fd: int, actions: seq<Action<T>>, n: nat)
    requires Actions(fd, actions).intact && n <= |Actions(fd, actions).fifo|
    ensures var c, d := Actions(fd, actions), Actions(fd, actions + Repeat(Drain, n));
            d == c.(fifo := c.fifo[n..], batch := c.batch + c.fifo[..n])
    decreases n
  {
    if n == 0 {
      assert actions + Repeat<T>(Drain, 0) == actions;
    } else {
      DrainsTakeTheFirst(fd, actions, n - 1);
      ActionsMore(fd, actions, Repeat(Drain, n - 1), Drain);
      var c := Actions(fd, actions);
      hide Actions;
      DrainOneMore(c, n);
    }
  }

  lemma DrainOneMore<T>(c: Connection<T>, n: nat)
    requires c.Sized() && c.intact && 0 < n <= |c.fifo|
    ensures Act(c.(fifo := c.fifo[n - 1..], batch := c.batch + c.fifo[..n - 1]), Drain)
            == c.(fifo := c.fifo[n..], batch := c.batch + c.fifo[..n])
  {
    assert c.fifo[..n] == c.fifo[..n - 1] + [c.fifo[n - 1]];
  }

  /** What each of some cells leads to. */
  function Leads<T>(c: Connection<T>, items: seq<LinkIndex>): (cells: seq<Cell<T>>)
    requires c.Sized()
    ensures |cells| == |items| && forall i :: 0 <= i < |items| ==> cells[i] == Lead(c, items[i])
  {
    seq(|items|, i requires 0 <= i < |items| => Lead(c, items[i]))
  }

  /** And n turns of the publishing loop publish what its first n cells lead to, in order. */
  lemma {:induction false} PublishesTakeTheFirst<T>(fd: int, actions: seq<Action<T>>, n: nat)
    requires Actions(fd, actions).intact && n <= |Actions(fd, actions).batch|
    ensures var c, d := Actions(fd, actions), Actions(fd, actions + Repeat(PublishNext, n));
            d == c.(batch := c.batch[n..], published := c.published + Leads(c, c.batch[..n]), readAt := d.readAt)
            && d.readAt == c.readAt + seq(n, _ => |c.received|)
    decreases n
  {
    var c := Actions(fd, actions);
    if n == 0 {
      assert actions + Repeat<T>(PublishNext, 0) == actions;
      assert c.published + Leads(c, []) == c.published && c.readAt + [] == c.readAt;
    } else {
      PublishesTakeTheFirst(fd, actions, n - 1);
      ActionsMore(fd, actions, Repeat(PublishNext, n - 1), PublishNext);
      hide Actions;
      PublishOneMore(c, n);
    }
  }

  lemma PublishOneMore<T>(c: Connection<T>, n: nat)
    requires c.Sized() && c.intact && 0 < n <= |c.batch|
    ensures var d := c.(batch := c.batch[n - 1..], published := c.published + Leads(c, c.batch[..n - 1]),
                        readAt := c.readAt + seq(n - 1, _ => |c.received|));
            Act(d, PublishNext) == c.(batch := c.batch[n..], published := c.published + Leads(c, c.batch[..n]),
                                      readAt := c.readAt + seq(n, _ => |c.received|))
  {
    assert Leads(c, c.batch[..n]) == Leads(c, c.batch[..n - 1]) + [Lead(c, c.batch[n - 1])];
    assert seq(n, _ => |c.received|) == seq(n - 1, _ => |c.received|) + [|c.received|];
  }

  // -------------------------------------------------------------- when the FIFO stays intact

  /**
  On a stream the FIFO has to be empty; for datagrams the cell to be used again must have left it,
  and the array of cells must not be moved.
  */
  predicate HasRoom<T>(c: Connection<T>) {
    if c.fd == 0 then c.fifo == [] else |c.received| + |c.fifo| < 0x7FF && |c.received| < 0x5FF
  }

  lemma CellIsQueuedIff(fd: int, fifo: seq<LinkIndex>, from: nat)
    requires Queued(fd, fifo, from) && Numbered(fd, from + |fifo|)
    ensures LinkOf(fd, from + |fifo|) in fifo
            <==> if fd == 0 then fifo != [] else from + |fifo| + |fifo| >= 0x7FF
  {
    var n, cell := from + |fifo|, LinkOf(fd, from + |fifo|);
    if fd == 0 {
      if fifo != [] { QueuedTail(fd, fifo, from); }
    } else if n + |fifo| >= 0x7FF {
      var i := cell - from;
      assert fifo[i] == cell;
    }
  }

  lemma ReceiveIntactIff<T>(c: Connection<T>, body: T)
    requires c.intact && Inv(c)
    ensures Act(c, Receive(body)).intact <==> HasRoom(c)
  {
    hide Act, Right, SlotsInv, LinksInv, Queued, LinkOf;
    SecondStarts(c, |c.received|);
    ReceiveResult(c, body);
    CellIsQueuedIff(c.fd, c.fifo, |c.published| + |c.batch|);
  }

  lemma ActIntactIff<T>(c: Connection<T>, a: Action<T>)
    requires c.Sized() && Sound(c)
    ensures Act(c, a).intact <==> c.intact && (a.Receive? ==> HasRoom(c))
  {
    hide Inv, HasRoom, Right;
    if c.intact && a.Receive? { ReceiveIntactIff(c, a.body); }
  }

  lemma ActionsSnoc<T>(fd: int, actions: seq<Action<T>>, n: nat)
    requires n < |actions|
    ensures Actions(fd, actions[..n + 1]) == Act(Actions(fd, actions[..n]), actions[n])
  {
    hide Act;
    assert actions[..n + 1][..n] == actions[..n];
  }

  ghost predicate RoomUpTo<T>(fd: int, actions: seq<Action<T>>, n: nat)
    requires n <= |actions|
  {
    forall m :: 0 <= m < n && actions[m].Receive? ==> HasRoom(Actions(fd, actions[..m]))
  }

  lemma {:induction false} IntactUpTo<T>(fd: int, actions: seq<Action<T>>, n: nat)
    requires n <= |actions|
    ensures Actions(fd, actions[..n]).intact <==> RoomUpTo(fd, actions, n)
    decreases n
  {
    hide HasRoom, Act, Sound;
    if n > 0 {
      IntactUpTo(fd, actions, n - 1);
      ActionsKeepSound(fd, actions[..n - 1]);
      ActionsSnoc(fd, actions, n - 1);
      ActIntactIff(Actions(fd, actions[..n - 1]), actions[n - 1]);
      hide Actions;
    }
  }

  /** In every run the FIFO is intact if and only if there was room at every reception. */
  lemma IntactIff<T>(fd: int, actions: seq<Action<T>>)
    ensures Actions(fd, actions).intact
            <==> forall m :: 0 <= m < |actions| && actions[m].Receive? ==> HasRoom(Actions(fd, actions[..m]))
  {
    hide HasRoom, Actions;
    IntactUpTo(fd, actions, |actions|);
    assert actions[..|actions|] == actions;
  }

  /** For the first messages there always is room: 256 datagrams, or one message of a stream. */
  lemma {:induction false} FewStayIntact<T>(fd: int, actions: seq<Action<T>>)
    requires |Actions(fd, actions).received| <= Window(fd)
    ensures Actions(fd, actions).intact
    decreases |actions|
  {
    if |actions| > 0 {
      hide Act, SlotsInv, LinksInv, Queued, Right;
      var front, a := actions[..|actions| - 1], actions[|actions| - 1];
      var c := Actions(fd, front);
      ActionsKeepSound(fd, front);
      ReceivedGrows(c, a);
      FewStayIntact(fd, front);
      ActIntactIff(c, a);
    }
  }

  lemma ReceivedGrows<T>(c: Connection<T>, a: Action<T>)
    requires c.Sized() && Sound(c)
    ensures var d := Act(c, a); |d.received| == if c.intact && a.Receive? then |c.received| + 1 else |c.received|
    ensures a.Receive? ==> Act(c, a).batch == c.batch && Act(c, a).published == c.published
  {
    if c.intact && a.Receive? {
      hide Act;
      ReceiveResult(c, a.body);
    }
  }

  /** As long as the writer has done nothing, the FIFO holds the cells of all messages. */
  lemma {:induction false} AllQueued<T>(fd: int, actions: seq<Action<T>>)
    requires forall a <- actions :: a.Receive?
    ensures var c := Actions(fd, actions);
            c.batch == [] && c.published == [] && (c.intact ==> Queued(fd, c.fifo, 0) && |c.fifo| == |c.received|)
    decreases |actions|
  {
    hide Act, SlotsInv, LinksInv, Queued, Right;
    ActionsKeepSound(fd, actions);
    if |actions| > 0 {
      var front, a := actions[..|actions| - 1], actions[|actions| - 1];
      assert a in actions;
      AllQueued(fd, front);
      ActionsKeepSound(fd, front);
      ReceivedGrows(Actions(fd, front), a);
    }
  }

  /** Two messages of a stream without a turn of the writer in between put the same cell into the FIFO twice. */
  lemma SecondMessageBreaksStream<T>(x: T, y: T)
    ensures !Actions(0, [Receive(x), Receive(y)]).intact
  {
    var one := [Receive(x)];
    NothingYet<T>(0);
    assert one[..0] == [];
    ReceiveResult(Actions<T>(0, []), x);
    assert [Receive(x), Receive(y)][..1] == one;
    hide Actions, Act;
    IntactIff(0, [Receive(x), Receive(y)]);
    assert one == [Receive(x), Receive(y)][..1];
  }

  /** The scan as it stands, without a test for NULL, starts at a cell whose pointer is NULL. */
  lemma FirstScanMeetsNull<T>(fd: int)
    ensures Actions<T>(fd, []).links[0] == Null && FirstFree(Actions<T>(fd, []), 0) == 0
  {
  }

  // -------------------------------------------------------------- the copy as it is written

  /**
  The publish loop copies from the address of the reference, not from where it leads.  For two
  memories that agree on what follows that address, the ring gets the same bytes whatever was received.
  */
  lemma CopyIgnoresMessage(m: seq<WordMemory.Byte>, m': seq<WordMemory.Byte>, cell: nat, slot: nat, size: nat)
    requires |m| == |m'| && cell + size <= |m| && slot + size <= |m|
    requires m[cell..cell + size] == m'[cell..cell + size]
    ensures WordMemory.Moved(m, cell, slot, size)[slot..slot + size]
            == WordMemory.Moved(m', cell, slot, size)[slot..slot + size]
  {
    CopiedBytes(m, cell, slot, size);
    CopiedBytes(m', cell, slot, size);
  }

  lemma CopiedBytes(m: seq<WordMemory.Byte>, src: nat, dst: nat, size: nat)
    requires src + size <= |m| && dst + size <= |m|
    ensures WordMemory.Moved(m, src, dst, size)[dst..dst + size] == m[src..src + size]
  {
    var x, y := WordMemory.Moved(m, src, dst, size)[dst..dst + size], m[src..src + size];
    forall k | 0 <= k < size ensures x[k] == y[k] {
      assert x[k] == WordMemory.Moved(m, src, dst, size)[dst + k];
    }
  }
}
