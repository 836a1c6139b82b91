/**
The session pool of `src/session/session_connection.c`: a reader's nodes are collected in a
growing array and flushed to the send callback once the byte limit is reached.
*/
module SessionPool {
  import opened WordMemory

  const U16 := 0x1_0000
  const U32 := 0x1_0000_0000

  datatype Family = Inet | Inet6 | Other(code: int)

  /** The bytes of a `struct sockaddr` and of a `struct sockaddr_in6`. */
  type SockAddr = s: seq<Byte> | |s| == 16 witness [0, 0, 0, 0, 0, 0, 0, 0, 0, 0, 0, 0, 0, 0, 0, 0]

  type SockAddr6 = s: seq<Byte> | |s| == 28
    witness [0, 0, 0, 0, 0, 0, 0, 0, 0, 0, 0, 0, 0, 0, 0, 0, 0, 0, 0, 0, 0, 0, 0, 0, 0, 0, 0, 0]

  const NO_ADDR: SockAddr := [0, 0, 0, 0, 0, 0, 0, 0, 0, 0, 0, 0, 0, 0, 0, 0]

  const NO_ADDR6: SockAddr6 :=
    [0, 0, 0, 0, 0, 0, 0, 0, 0, 0, 0, 0, 0, 0, 0, 0, 0, 0, 0, 0, 0, 0, 0, 0, 0, 0, 0, 0]

  /** The fields of `struct node` that the session code reads. */
  datatype Node = Node(fd: int, port: nat, family: Family, ipv4: SockAddr, ipv6: SockAddr6,
                       arrival: nat, valueSize: nat, value: seq<Byte>)

  datatype Owner = NoOwner | OwnedBy(node: Node)

  /** Where `struct sockaddr_in` and `struct sockaddr_in6` have the address. */
  function SinAddr(s: SockAddr): seq<Byte> { s[4..8] }

  function Sin6Addr(s: SockAddr6): seq<Byte> { s[8..24] }

  /** `node_cmp(...) == 0`: the node belongs to the session. */
  predicate Selects(owner: Owner, n: Node) {
    match owner
    case NoOwner => false
    case OwnedBy(o) =>
      && n.fd == o.fd && n.port == o.port && n.family == o.family
      && (n.family == Inet ==> SinAddr(n.ipv4) == SinAddr(o.ipv4))
      && (n.family == Inet6 ==> Sin6Addr(n.ipv6) == Sin6Addr(o.ipv6))
  }

  // -------------------------------------------------------------- stable sorting

  /** Where insertion puts `key`: after every node that did not arrive later. */
  function Insert(s: seq<Node>, key: Node): (r: seq<Node>)
    ensures |r| == |s| + 1
    decreases |s|
  {
    if s == [] || s[|s| - 1].arrival <= key.arrival then s + [key]
    else Insert(s[..|s| - 1], key) + [s[|s| - 1]]
  }

  function SortByArrival(s: seq<Node>): (r: seq<Node>)
    ensures |r| == |s|
    decreases |s|
  {
    if s == [] then [] else Insert(SortByArrival(s[..|s| - 1]), s[|s| - 1])
  }

  ghost predicate Sorted(s: seq<Node>) {
    forall i, j :: 0 <= i < j < |s| ==> s[i].arrival <= s[j].arrival
  }

  /** The nodes with one arrival time, in the order in which they stand. */
  function ArrivedAt(s: seq<Node>, time: nat): seq<Node>
    decreases |s|
  {
    if s == [] then []
    else ArrivedAt(s[..|s| - 1], time) + (if s[|s| - 1].arrival == time then [s[|s| - 1]] else [])
  }

  lemma ArrivedAtSnoc(s: seq<Node>, x: Node, time: nat)
    ensures ArrivedAt(s + [x], time) == ArrivedAt(s, time) + if x.arrival == time then [x] else []
  {
    assert (s + [x])[..|s|] == s;
  }

  lemma {:induction false} InsertPermutes(s: seq<Node>, key: Node)
    ensures multiset(Insert(s, key)) == multiset(s) + multiset{key}
    decreases |s|
  {
    if s != [] && s[|s| - 1].arrival > key.arrival {
      var front, last := s[..|s| - 1], s[|s| - 1];
      InsertPermutes(front, key);
      assert s == front + [last];
    }
  }

  lemma {:induction false} InsertSorts(s: seq<Node>, key: Node)
    requires Sorted(s)
    ensures Sorted(Insert(s, key))
    decreases |s|
  {
    if s != [] && s[|s| - 1].arrival > key.arrival {
      var front, last := s[..|s| - 1], s[|s| - 1];
      InsertSorts(front, key);
      InsertPermutes(front, key);
      var r := Insert(front, key);
      forall i | 0 <= i < |r| ensures r[i].arrival <= last.arrival {
        assert r[i] in multiset(r);
        assert r[i] in front || r[i] == key;
      }
    }
  }

  lemma {:induction false} InsertIsStable(s: seq<Node>, key: Node, time: nat)
    ensures ArrivedAt(Insert(s, key), time) == ArrivedAt(s, time) + if key.arrival == time then [key] else []
    decreases |s|
  {
    if s == [] || s[|s| - 1].arrival <= key.arrival {
      ArrivedAtSnoc(s, key, time);
    } else {
      var front, last := s[..|s| - 1], s[|s| - 1];
      InsertIsStable(front, key, time);
      ArrivedAtSnoc(Insert(front, key), last, time);
    }
  }

  /** Sorted and a permutation. */
  lemma {:induction false} SortSorts(s: seq<Node>)
    ensures Sorted(SortByArrival(s))
    ensures multiset(SortByArrival(s)) == multiset(s)
    decreases |s|
  {
    if s != [] {
      var front, last := s[..|s| - 1], s[|s| - 1];
      SortSorts(front);
      InsertSorts(SortByArrival(front), last);
      InsertPermutes(SortByArrival(front), last);
      assert s == front + [last];
    }
  }

  /** Stable: each arrival time keeps its nodes in order. */
  lemma {:induction false} SortIsStable(s: seq<Node>, time: nat)
    ensures ArrivedAt(SortByArrival(s), time) == ArrivedAt(s, time)
    decreases |s|
  {
    if s != [] {
      var front, last := s[..|s| - 1], s[|s| - 1];
      SortIsStable(front, time);
      InsertIsStable(SortByArrival(front), last, time);
    }
  }

  lemma LastArrival(s: seq<Node>, time: nat)
    requires s != [] && Sorted(s) && time >= s[|s| - 1].arrival
    ensures time > s[|s| - 1].arrival ==> ArrivedAt(s, time) == []
    ensures time == s[|s| - 1].arrival ==>
              ArrivedAt(s, time) != [] && ArrivedAt(s, time)[|ArrivedAt(s, time)| - 1] == s[|s| - 1]
  {
    if time > s[|s| - 1].arrival { NoneArrivedAt(s, time); }
  }

  /** These properties leave one result only, so `SortByArrival` is the stable sort. */
  lemma {:induction false} StableSortIsUnique(s: seq<Node>, t: seq<Node>)
    requires Sorted(s) && Sorted(t) && |s| == |t|
    requires forall time: nat :: ArrivedAt(s, time) == ArrivedAt(t, time)
    ensures s == t
    decreases |s|
  {
    if s != [] {
      var s', t' := s[..|s| - 1], t[..|t| - 1];
      var a, b := s[|s| - 1], t[|t| - 1];
      var latest := if a.arrival > b.arrival then a.arrival else b.arrival;
      LastArrival(s, latest);
      LastArrival(t, latest);
      assert ArrivedAt(s, latest) == ArrivedAt(t, latest);
      assert a == b;
      forall time: nat ensures ArrivedAt(s', time) == ArrivedAt(t', time) {
        assert ArrivedAt(s, time) == ArrivedAt(t, time);
        SameFront(ArrivedAt(s', time), ArrivedAt(t', time), if a.arrival == time then [a] else []);
      }
      StableSortIsUnique(s', t');
      assert s == s' + [a] && t == t' + [b];
    }
  }

  lemma SameFront<T>(p: seq<T>, q: seq<T>, r: seq<T>)
    requires p + r == q + r
    ensures p == q
  {
    assert |p| == |q|;
    assert p == (p + r)[..|p|] && q == (q + r)[..|q|];
  }

  lemma {:induction false} NoneArrivedAt(s: seq<Node>, time: nat)
    requires forall i :: 0 <= i < |s| ==> s[i].arrival < time
    ensures ArrivedAt(s, time) == []
    decreases |s|
  {
    if s != [] { NoneArrivedAt(s[..|s| - 1], time); }
  }

  // -------------------------------------------------------------- byte counting

  /** The bytes in the first `k` nodes. */
  function BytesTo(s: seq<Node>, k: nat): nat
    requires k <= |s|
    decreases k, |s|
  {
    if k == 0 then 0 else BytesTo(s, k - 1) + s[k - 1].valueSize
  }

  function Bytes(s: seq<Node>): nat { BytesTo(s, |s|) }

  lemma {:induction false} BytesMonotone(s: seq<Node>, j: nat, k: nat)
    requires j <= k <= |s|
    ensures BytesTo(s, j) <= BytesTo(s, k)
    decreases k
  {
    if j < k { BytesMonotone(s, j, k - 1); }
  }

  lemma {:induction false} BytesOfPrefix(s: seq<Node>, t: seq<Node>, k: nat)
    requires k <= |s| && s <= t
    ensures BytesTo(s, k) == BytesTo(t, k)
  {
    if k != 0 { BytesOfPrefix(s, t, k - 1); }
  }

  lemma BytesOfSnoc(s: seq<Node>, last: Node)
    ensures Bytes(s + [last]) == Bytes(s) + last.valueSize
  {
    BytesOfPrefix(s, s + [last], |s|);
  }

  /** The running `uint16_t` total from node `k` on; it stops early once it reaches `max`. */
  function Size16(s: seq<Node>, max: nat, k: nat, total: nat): (r: nat)
    requires k <= |s| && total < U16
    ensures r < U16
    decreases |s| - k
  {
    if k == |s| then total
    else
      var t := (total + s[k].valueSize) % U16;
      if t >= max then t else Size16(s, max, k + 1, t)
  }

  function SessionSize(s: seq<Node>, max: nat): (r: nat)
    ensures r < U16
  {
    Size16(s, max, 0, 0)
  }

  /** While the bytes stay below the limit the wrapping total is the true one. */
  lemma {:induction false} SizeIsExactBelow(s: seq<Node>, max: nat, k: nat)
    requires k <= |s| && max <= U16
    requires Bytes(s) < max
    ensures BytesTo(s, k) < max && Size16(s, max, k, BytesTo(s, k)) == Bytes(s)
    decreases |s| - k
  {
    BytesMonotone(s, k, |s|);
    if k < |s| {
      BytesMonotone(s, k + 1, |s|);
      var t := BytesTo(s, k) + s[k].valueSize;
      assert t == BytesTo(s, k + 1) && t % U16 == t;
      SizeIsExactBelow(s, max, k + 1);
    }
  }

  /** One more node on top of a pool below the limit: only the last addition can wrap. */
  lemma {:induction false} SizeWithLast(s: seq<Node>, last: Node, max: nat, k: nat)
    requires k <= |s| && max <= U16
    requires Bytes(s) < max
    ensures BytesTo(s, k) < max && Size16(s + [last], max, k, BytesTo(s, k)) == (Bytes(s) + last.valueSize) % U16
    decreases |s| - k
  {
    BytesMonotone(s, k, |s|);
    if k < |s| {
      BytesMonotone(s, k + 1, |s|);
      var t := BytesTo(s, k) + (s + [last])[k].valueSize;
      assert t == BytesTo(s, k + 1) && t % U16 == t;
      SizeWithLast(s, last, max, k + 1);
    }
  }

  lemma SessionSizeWithLast(s: seq<Node>, last: Node, max: nat)
    requires max <= U16 && Bytes(s) < max
    ensures SessionSize(s + [last], max) == (Bytes(s) + last.valueSize) % U16
  {
    SizeWithLast(s, last, max, 0);
  }

  lemma Remainder16(a: nat, b: nat)
    ensures (a % U16 + b) % U16 == (a + b) % U16
  {
  }

  lemma Remainder32(a: nat, b: nat)
    ensures (a % U32 + b) % U32 == (a + b) % U32
  {
  }

  lemma {:induction false} Size16Is(s: seq<Node>, max: nat, k: nat) returns (j: nat)
    requires k <= |s| && forall i :: 0 < i <= k ==> BytesTo(s, i) % 0x1_0000 < max
    ensures k <= j <= |s| && Size16(s, max, k, BytesTo(s, k) % U16) == BytesTo(s, j) % 0x1_0000
    ensures j == |s| || (j > 0 && BytesTo(s, j) % 0x1_0000 >= max)
    ensures forall i :: 0 < i < j ==> BytesTo(s, i) % 0x1_0000 < max
    decreases |s| - k
  {
    j := k;
    if k < |s| {
      Remainder16(BytesTo(s, k), s[k].valueSize);
      assert BytesTo(s, k + 1) == BytesTo(s, k) + s[k].valueSize;
      if BytesTo(s, k + 1) % U16 < max { j := Size16Is(s, max, k + 1); } else { j := k + 1; }
    }
  }

  /**
  What `get_session_size` returns for every pool: the 16-bit total of the shortest prefix for which
  it reaches the limit, or of the whole pool if there is none.
  */
  lemma SessionSizeIs(s: seq<Node>, max: nat) returns (j: nat)
    ensures j <= |s| && SessionSize(s, max) == BytesTo(s, j) % 0x1_0000
    ensures j == |s| || (j > 0 && BytesTo(s, j) % 0x1_0000 >= max)
    ensures forall i :: 0 < i < j ==> BytesTo(s, i) % 0x1_0000 < max
  {
    j := Size16Is(s, max, 0);
  }

  /** The loop that decides how many nodes a flush takes, from node `k` on with `siz` bytes so far. */
  function CountFrom(s: seq<Node>, limit: nat, k: nat, siz: nat): (count: nat)
    requires k < |s|
    ensures k < count <= |s|
    decreases |s| - k
  {
    var t := (siz + s[k].valueSize) % U32;
    if t <= limit && k + 1 < |s| then CountFrom(s, limit, k + 1, t) else k + 1
  }

  function FlushCount(s: seq<Node>, limit: nat): (count: nat)
    requires s != []
    ensures 0 < count <= |s|
  {
    CountFrom(s, limit, 0, 0)
  }

  lemma {:induction false} CountFromIs(s: seq<Node>, limit: nat, k: nat)
    requires k < |s|
    ensures var c := CountFrom(s, limit, k, BytesTo(s, k) % U32);
            && (c == |s| || BytesTo(s, c) % 0x1_0000_0000 > limit)
            && forall i :: k < i < c ==> BytesTo(s, i) % 0x1_0000_0000 <= limit
    decreases |s| - k
  {
    Remainder32(BytesTo(s, k), s[k].valueSize);
    var t := (BytesTo(s, k) % U32 + s[k].valueSize) % U32;
    assert BytesTo(s, k + 1) % U32 == t;
    if t <= limit && k + 1 < |s| { CountFromIs(s, limit, k + 1); }
  }

  /** How much a flush takes of every pool: the shortest prefix whose 32-bit total exceeds the limit, or everything. */
  lemma FlushCountIs(s: seq<Node>, limit: nat)
    requires s != []
    ensures var c := FlushCount(s, limit);
            && 0 < c <= |s| && (c == |s| || BytesTo(s, c) % 0x1_0000_0000 > limit)
            && forall i :: 0 < i < c ==> BytesTo(s, i) % 0x1_0000_0000 <= limit
  {
    CountFromIs(s, limit, 0);
  }

  /** The flushed batch: the shortest prefix whose bytes exceed the limit, or everything if none does. */
  ghost predicate IsBatch(s: seq<Node>, limit: nat, count: nat) {
    && 0 < count <= |s|
    && (forall k :: 0 < k < count ==> BytesTo(s, k) <= limit)
    && (BytesTo(s, count) > limit || count == |s|)
  }

  ghost predicate SizesAtMost(s: seq<Node>, max: nat) {
    forall i :: 0 <= i < |s| ==> s[i].valueSize <= max
  }

  function Copies(n: Node, k: nat): (s: seq<Node>)
    ensures |s| == k && forall i :: 0 <= i < k ==> s[i] == n
  {
    seq(k, _ => n)
  }

  lemma {:induction false} OnesBytes(n: Node, k: nat, j: nat)
    requires n.valueSize == 1 && j <= k
    ensures BytesTo(Copies(n, k), j) == j
    decreases j
  {
    if j != 0 { OnesBytes(n, k, j - 1); }
  }

  /** The same with unbounded sums: where the shortest prefix over the limit ends, looking from node `k` on. */
  function BatchFrom(s: seq<Node>, limit: nat, k: nat): (count: nat)
    requires k < |s|
    ensures k < count <= |s| && (BytesTo(s, count) > limit || count == |s|)
    ensures forall i :: k < i < count ==> BytesTo(s, i) <= limit
    decreases |s| - k
  {
    if BytesTo(s, k + 1) <= limit && k + 1 < |s| then BatchFrom(s, limit, k + 1) else k + 1
  }

  lemma BatchIsUnique(s: seq<Node>, limit: nat, count: nat)
    requires s != []
    ensures IsBatch(s, limit, count) <==> count == BatchFrom(s, limit, 0)
  {
  }

  /** The 32-bit sum of the loop shows that the limit is exceeded where it is. */
  predicate SumShows(s: seq<Node>, limit: nat)
    requires s != []
  {
    var b := BatchFrom(s, limit, 0);
    b == |s| || BytesTo(s, b) % U32 > limit
  }

  lemma SmallRemainder(n: nat)
    requires n < U32
    ensures n % U32 == n
  {
  }

  /** Up to the end of the batch the 32-bit sum is exact; there the loop stops, or never stops in time. */
  lemma {:induction false} CountFromIff(s: seq<Node>, limit: nat, k: nat)
    requires k < |s| && limit < U32 && BytesTo(s, k) <= limit
    ensures var b := BatchFrom(s, limit, k);
            CountFrom(s, limit, k, BytesTo(s, k)) == b <==> b == |s| || BytesTo(s, b) % U32 > limit
    decreases |s| - k
  {
    var sum := BytesTo(s, k) + s[k].valueSize;
    assert BytesTo(s, k + 1) == sum;
    if sum <= limit {
      SmallRemainder(sum);
      if k + 1 < |s| { CountFromIff(s, limit, k + 1); }
    }
  }

  lemma {:induction false} CountFromNeverStops(s: seq<Node>, limit: nat, k: nat, siz: nat)
    requires k < |s| && limit >= U32
    ensures CountFrom(s, limit, k, siz) == |s|
    decreases |s| - k
  {
    if k + 1 < |s| { CountFromNeverStops(s, limit, k + 1, (siz + s[k].valueSize) % U32); }
  }

  /**
  For every pool: what a flush takes is the shortest prefix whose bytes exceed the limit, or
  everything if none does, if and only if the 32-bit sum of that prefix is over the limit too
  or the prefix is everything anyway.
  */
  lemma FlushCountIsBatchIff(s: seq<Node>, limit: nat)
    requires s != []
    ensures IsBatch(s, limit, FlushCount(s, limit)) <==> SumShows(s, limit)
  {
    BatchIsUnique(s, limit, FlushCount(s, limit));
    if limit < U32 {
      CountFromIff(s, limit, 0);
    } else {
      CountFromNeverStops(s, limit, 0, 0);
    }
  }

  lemma BoundedSumShows(s: seq<Node>, limit: nat, max: nat)
    requires s != [] && SizesAtMost(s, max) && limit + max < U32
    ensures SumShows(s, limit)
  {
    var b := BatchFrom(s, limit, 0);
    assert BytesTo(s, b) == BytesTo(s, b - 1) + s[b - 1].valueSize;
    assert b > 1 ==> BytesTo(s, b - 1) <= limit;
  }

  /** A pool for which the sum wraps past the limit unseen, with sizes up to `max`. */
  lemma SumCanWrap(limit: nat, max: nat) returns (s: seq<Node>)
    requires 0 < max && limit + max >= U32
    ensures s != [] && SizesAtMost(s, max) && !SumShows(s, limit)
  {
    var one := Node(0, 0, Inet, NO_ADDR, NO_ADDR6, 0, 1, []);
    var last := one.(valueSize := if limit < U32 then U32 - limit else 1);
    var front := Copies(one, limit);
    s := front + [last] + [one];
    OnesBytes(one, limit, limit);
    forall k | 0 <= k <= limit ensures BytesTo(s, k) == k {
      OnesBytes(one, limit, k);
      BytesOfPrefix(front, s, k);
    }
    assert BytesTo(s, limit + 1) == limit + last.valueSize;
    BatchEndsAt(s, limit, limit + 1);
  }

  lemma BatchEndsAt(s: seq<Node>, limit: nat, count: nat)
    requires 0 < count <= |s| && BytesTo(s, count) > limit
    requires forall k :: 0 <= k < count ==> BytesTo(s, k) <= limit
    ensures BatchFrom(s, limit, 0) == count
  {
    BatchIsUnique(s, limit, count);
  }

  /** Over all pools of messages of at most `max` bytes: exactly when no sum can wrap. */
  lemma EveryFlushIsBatchIff(limit: nat, max: nat)
    requires 0 < max
    ensures (forall s: seq<Node> :: s != [] && SizesAtMost(s, max) ==> IsBatch(s, limit, FlushCount(s, limit)))
            <==> limit + max < 0x1_0000_0000
  {
    if limit + max < U32 {
      forall s: seq<Node> | s != [] && SizesAtMost(s, max) ensures IsBatch(s, limit, FlushCount(s, limit)) {
        BoundedSumShows(s, limit, max);
        FlushCountIsBatchIff(s, limit);
      }
    } else {
      var s := SumCanWrap(limit, max);
      FlushCountIsBatchIff(s, limit);
    }
  }

  // -------------------------------------------------------------- one step of the pool

  /** The pool and what the send callback has been given, batch by batch. */
  datatype Pool = Pool(nodes: seq<Node>, sent: seq<seq<Node>>)

  function Flush(p: Pool, limit: nat, hasCallback: bool): Pool
    requires p.nodes != []
  {
    var count := FlushCount(p.nodes, limit);
    Pool(SortByArrival(p.nodes[count..]), if hasCallback then p.sent + [p.nodes[..count]] else p.sent)
  }

  /** `process_session_node`. */
  function Process(p: Pool, owner: Owner, n: Node, limit: nat, hasCallback: bool): Pool {
    if !Selects(owner, n) then p
    else
      var q := Pool(p.nodes + [n], p.sent);
      if SessionSize(q.nodes, limit) >= limit then Flush(q, limit, hasCallback) else q
  }

  /**
  One flush of an arbitrary pool: a prefix goes out, and the rest stays, stably sorted.  The
  prefix is the shortest over the limit exactly when the 32-bit sum shows it.
  */
  lemma FlushSplitsPool(p: Pool, limit: nat, time: nat)
    requires p.nodes != []
    ensures var q := Flush(p, limit, true);
            && |q.sent| == |p.sent| + 1 && q.sent[..|p.sent|] == p.sent
            && var batch := q.sent[|p.sent|];
            && batch != [] && batch <= p.nodes
            && (IsBatch(p.nodes, limit, |batch|) <==> SumShows(p.nodes, limit))
            && Sorted(q.nodes)
            && ArrivedAt(q.nodes, time) == ArrivedAt(p.nodes[|batch|..], time)
            && multiset(batch) + multiset(q.nodes) == multiset(p.nodes)
  {
    var count := FlushCount(p.nodes, limit);
    FlushCountIsBatchIff(p.nodes, limit);
    SortSorts(p.nodes[count..]);
    SortIsStable(p.nodes[count..], time);
    assert p.nodes == p.nodes[..count] + p.nodes[count..];
  }

  /** Without a callback the batch goes nowhere: the pool keeps what it would keep, and nothing is sent. */
  lemma FlushWithoutCallback(p: Pool, limit: nat, time: nat)
    requires p.nodes != []
    ensures var q := Flush(p, limit, false);
            && q.sent == p.sent
            && exists batch: seq<Node> ::
                 && batch != [] && batch <= p.nodes
                 && (IsBatch(p.nodes, limit, |batch|) <==> SumShows(p.nodes, limit))
                 && Sorted(q.nodes)
                 && ArrivedAt(q.nodes, time) == ArrivedAt(p.nodes[|batch|..], time)
                 && multiset(batch) + multiset(q.nodes) == multiset(p.nodes)
  {
    FlushSplitsPool(p, limit, time);
    var r := Flush(p, limit, true);
    var batch := r.sent[|p.sent|];
    assert batch <= p.nodes && Flush(p, limit, false).nodes == r.nodes;
  }

  // -------------------------------------------------------------- whole runs

  /** The pool after the reader has looked at `seen`, from an empty pool. */
  function PoolAfter(owner: Owner, seen: seq<Node>, limit: nat): Pool
    decreases |seen|
  {
    if seen == [] then Pool([], [])
    else Process(PoolAfter(owner, seen[..|seen| - 1], limit), owner, seen[|seen| - 1], limit, true)
  }

  function Accepted(owner: Owner, seen: seq<Node>): seq<Node>
    decreases |seen|
  {
    if seen == [] then []
    else Accepted(owner, seen[..|seen| - 1]) + (if Selects(owner, seen[|seen| - 1]) then [seen[|seen| - 1]] else [])
  }

  function Concat(batches: seq<seq<Node>>): seq<Node>
    decreases |batches|
  {
    if batches == [] then [] else Concat(batches[..|batches| - 1]) + batches[|batches| - 1]
  }

  /** What holds between the steps of a run. */
  ghost predicate Conserves(p: Pool, accepted: seq<Node>, limit: nat, max: nat) {
    && Concat(p.sent) + p.nodes == accepted
    && Bytes(p.nodes) < limit
    && SessionSize(p.nodes, limit) == Bytes(p.nodes)
    && forall i :: 0 <= i < |p.sent| ==> limit <= Bytes(p.sent[i]) < limit + max
  }

  /** Accepting a node on top of a pool below the limit: it is kept, or it completes a batch of everything. */
  lemma AcceptedKeptOrFlushed(p: Pool, owner: Owner, n: Node, limit: nat, max: nat)
    requires 0 < limit && limit - 1 + max <= 0xFFFF
    requires Selects(owner, n) && n.valueSize <= max && Bytes(p.nodes) < limit
    ensures var all, q := p.nodes + [n], Process(p, owner, n, limit, true);
            && Bytes(all) == Bytes(p.nodes) + n.valueSize
            && q == if Bytes(all) < limit then Pool(all, p.sent) else Pool([], p.sent + [all])
  {
    hide SortByArrival;
    var all := p.nodes + [n];
    BytesOfPrefix(p.nodes, all, |p.nodes|);
    SessionSizeWithLast(p.nodes, n, limit);
    hide SessionSize;
    if Bytes(all) >= limit {
      PrefixesBelow(p.nodes, n, limit, 0);
      hide CountFrom;
      FlushOfAll(all, p.sent, limit);
    }
  }

  lemma FlushOfAll(all: seq<Node>, sent: seq<seq<Node>>, limit: nat)
    requires all != [] && FlushCount(all, limit) == |all|
    ensures Flush(Pool(all, sent), limit, true) == Pool([], sent + [all])
  {
    assert all[|all|..] == [] && all[..|all|] == all;
  }

  lemma ConcatSnoc(batches: seq<seq<Node>>, last: seq<Node>)
    ensures Concat(batches + [last]) == Concat(batches) + last
  {
    assert (batches + [last])[..|batches|] == batches;
  }

  /** So an accepted node keeps what holds between steps, and a flush takes the whole pool. */
  lemma StepConserves(p: Pool, owner: Owner, n: Node, limit: nat, max: nat, accepted: seq<Node>)
    requires 0 < limit && limit - 1 + max <= 0xFFFF
    requires Selects(owner, n) && n.valueSize <= max
    requires Conserves(p, accepted, limit, max)
    ensures Conserves(Process(p, owner, n, limit, true), accepted + [n], limit, max)
    ensures var q := Process(p, owner, n, limit, true);
            q == Pool(p.nodes + [n], p.sent) || q == Pool([], p.sent + [p.nodes + [n]])
  {
    var all := p.nodes + [n];
    AcceptedKeptOrFlushed(p, owner, n, limit, max);
    hide Process;
    assert accepted + [n] == Concat(p.sent) + all;
    if Bytes(all) < limit {
      SizeIsExactBelow(all, limit, 0);
    } else {
      ConcatSnoc(p.sent, all);
      hide Concat;
      SizeIsExactBelow([], limit, 0);
    }
  }

  lemma {:induction false} PrefixesBelow(s: seq<Node>, last: Node, limit: nat, k: nat)
    requires k <= |s| && limit <= U16 && Bytes(s) < limit && last.valueSize < U16
    ensures BytesTo(s, k) < limit && CountFrom(s + [last], limit, k, BytesTo(s, k)) == |s| + 1
    decreases |s| - k
  {
    var all := s + [last];
    BytesMonotone(s, k, |s|);
    if k < |s| {
      BytesMonotone(s, k + 1, |s|);
      PrefixesBelow(s, last, limit, k + 1);
      var t := BytesTo(s, k) + all[k].valueSize;
      assert t == BytesTo(s, k + 1) && t % U32 == t;
    } else {
      assert |all| == k + 1;
    }
  }

  /** Nothing is lost, repeated or reordered in any run, and the pool stays below the limit. */
  lemma {:induction false} RunConserves(owner: Owner, seen: seq<Node>, limit: nat, max: nat)
    requires 0 < limit && limit - 1 + max <= 0xFFFF && SizesAtMost(seen, max)
    ensures Conserves(PoolAfter(owner, seen, limit), Accepted(owner, seen), limit, max)
    decreases |seen|
  {
    if seen != [] {
      var front, n := seen[..|seen| - 1], seen[|seen| - 1];
      RunConserves(owner, front, limit, max);
      if Selects(owner, n) {
        StepConserves(PoolAfter(owner, front, limit), owner, n, limit, max, Accepted(owner, front));
      }
    }
  }

  lemma {:induction false} CountAtMostBytes(s: seq<Node>, k: nat)
    requires k <= |s| && forall i :: 0 <= i < |s| ==> s[i].valueSize > 0
    ensures k <= BytesTo(s, k)
  {
    if k != 0 { CountAtMostBytes(s, k - 1); }
  }

  /** With nonempty messages the pool holds fewer nodes than the limit has bytes. */
  lemma PoolCountBelowLimit(owner: Owner, seen: seq<Node>, limit: nat, max: nat)
    requires 0 < limit && limit - 1 + max <= 0xFFFF && SizesAtMost(seen, max)
    requires forall i :: 0 <= i < |seen| ==> seen[i].valueSize > 0
    ensures |PoolAfter(owner, seen, limit).nodes| < limit
  {
    RunConserves(owner, seen, limit, max);
    var p := PoolAfter(owner, seen, limit);
    AcceptedIsSeen(owner, seen);
    var all := Concat(p.sent) + p.nodes;
    forall i | 0 <= i < |p.nodes| ensures p.nodes[i].valueSize > 0 {
      assert all[|Concat(p.sent)| + i] == p.nodes[i];
      assert p.nodes[i] in seen;
    }
    CountAtMostBytes(p.nodes, |p.nodes|);
  }

  lemma {:induction false} AcceptedIsSeen(owner: Owner, seen: seq<Node>)
    ensures forall i :: 0 <= i < |Accepted(owner, seen)| ==> Accepted(owner, seen)[i] in seen
    decreases |seen|
  {
    if seen != [] { AcceptedIsSeen(owner, seen[..|seen| - 1]); }
  }

  // ------------------------------------------------ where the uint16_t total breaks

  lemma OneMoreIsKept(front: seq<Node>, n: Node, limit: nat)
    requires n.valueSize == 1 && (Bytes(front) + 1 < limit <= U16 || limit > U16)
    ensures Process(Pool(front, []), OwnedBy(n), n, limit, true) == Pool(front + [n], [])
  {
    if limit <= U16 { SessionSizeWithLast(front, n, limit); }
  }

  lemma {:induction false} OnesAccumulate(n: Node, k: nat, limit: nat)
    requires n.valueSize == 1 && (k < limit <= U16 || limit > U16)
    ensures PoolAfter(OwnedBy(n), Copies(n, k), limit) == Pool(Copies(n, k), [])
    decreases k
  {
    var s := Copies(n, k);
    if k != 0 {
      var front := Copies(n, k - 1);
      assert s[..k - 1] == front && s == front + [n];
      OnesAccumulate(n, k - 1, limit);
      OnesBytes(n, k - 1, k - 1);
      OneMoreIsKept(front, n, limit);
    }
  }

  /** A run whose last node makes the total wrap: the flush is missed and the pool is over the limit. */
  lemma WrapMissesFlush(limit: nat, max: nat) returns (owner: Owner, seen: seq<Node>)
    requires 0 < limit && 0 < max && limit - 1 + max > 0xFFFF
    ensures SizesAtMost(seen, max)
    ensures Bytes(PoolAfter(owner, seen, limit).nodes) >= limit
  {
    var one := Node(0, 0, Inet, NO_ADDR, NO_ADDR6, 0, 1, []);
    owner := OwnedBy(one);
    if limit > U16 {
      seen := Copies(one, limit);
      OnesAccumulate(one, limit, limit);
      OnesBytes(one, limit, limit);
    } else {
      var ones := if max >= U16 then 0 else U16 - max;
      seen := WrapAfter(one, ones, limit);
    }
  }

  lemma WrapAfter(one: Node, ones: nat, limit: nat) returns (seen: seq<Node>)
    requires one.valueSize == 1 && ones < limit <= U16
    ensures seen == Copies(one, ones) + [one.(valueSize := U16 - ones)]
    ensures Bytes(PoolAfter(OwnedBy(one), seen, limit).nodes) >= limit
  {
    hide PoolAfter, BytesTo;
    var front, last := Copies(one, ones), one.(valueSize := U16 - ones);
    seen := front + [last];
    OnesAccumulate(one, ones, limit);
    OnesBytes(one, ones, ones);
    PoolAfterSnoc(OwnedBy(one), front, last, limit);
    SessionSizeWithLast(front, last, limit);
    assert SessionSize(seen, limit) == U16 % U16 == 0;
    BytesOfSnoc(front, last);
  }

  /**
  Exactly when the pool stays below the limit in every run of messages of at most `max`
  bytes: when the `uint16_t` total cannot wrap on the message that reaches the limit.
  */
  lemma StaysBelowLimitIff(limit: nat, max: nat)
    requires 0 < limit && 0 < max
    ensures (forall owner: Owner, seen: seq<Node> ::
               SizesAtMost(seen, max) ==> Bytes(PoolAfter(owner, seen, limit).nodes) < limit)
            <==> limit - 1 + max <= 0xFFFF
  {
    if limit - 1 + max <= 0xFFFF {
      forall owner: Owner, seen: seq<Node> | SizesAtMost(seen, max)
        ensures Bytes(PoolAfter(owner, seen, limit).nodes) < limit
      {
        RunConserves(owner, seen, limit, max);
      }
    } else {
      var owner, seen := WrapMissesFlush(limit, max);
    }
  }

  /** The message buffer for an MTU, less header overhead, and the limit of six messages. */
  function ValueBufferSize(mtu: nat): nat
    requires mtu >= 80
  {
    mtu - 80
  }

  /** Both MTU profiles that compile are on the safe side of the wrap, as long as no read fails. */
  lemma MtuProfilesConserve(mtu: nat, owner: Owner, seen: seq<Node>)
    requires mtu == 1500 || mtu == 9000
    requires SizesAtMost(seen, ValueBufferSize(mtu))
    ensures var limit := 6 * ValueBufferSize(mtu);
            Conserves(PoolAfter(owner, seen, limit), Accepted(owner, seen), limit, ValueBufferSize(mtu))
    ensures ValueBufferSize(mtu) == if mtu == 1500 then 1420 else 8920
  {
    RunConserves(owner, seen, 6 * ValueBufferSize(mtu), ValueBufferSize(mtu));
  }

  /** What `value_size` becomes when a read fails with -1. */
  const FAILED_READ := U32 - 1

  /**
  A node whose read failed is passed on like any other.  It goes into a pool below the limit
  without taking it over the limit exactly when the pool has no bytes; otherwise the 16-bit
  total shrinks by one, and the flush is missed.
  */
  lemma FailedReadIff(p: Pool, owner: Owner, n: Node, limit: nat)
    requires Selects(owner, n) && n.valueSize == 0xFFFF_FFFF && Bytes(p.nodes) < limit <= 0xFFFF
    ensures Bytes(Process(p, owner, n, limit, true).nodes) < limit <==> Bytes(p.nodes) == 0
  {
    var all := p.nodes + [n];
    BytesOfPrefix(p.nodes, all, |p.nodes|);
    SessionSizeWithLast(p.nodes, n, limit);
    hide SessionSize;
    if Bytes(p.nodes) == 0 {
      NoBytesUntilLast(p.nodes, n, limit, 0);
      FlushOfAll(all, p.sent, limit);
    }
  }

  lemma {:induction false} NoBytesUntilLast(s: seq<Node>, last: Node, limit: nat, k: nat)
    requires k <= |s| && Bytes(s) == 0 && limit < last.valueSize < U32
    ensures BytesTo(s, k) == 0 && CountFrom(s + [last], limit, k, 0) == |s| + 1
    decreases |s| - k
  {
    BytesMonotone(s, k, |s|);
    if k < |s| {
      NoBytesUntilLast(s, last, limit, k + 1);
      assert BytesTo(s, k + 1) == s[k].valueSize == 0;
    } else {
      assert |s + [last]| == k + 1;
    }
  }

  lemma PoolAfterSnoc(owner: Owner, front: seq<Node>, last: Node, limit: nat)
    ensures PoolAfter(owner, front + [last], limit) == Process(PoolAfter(owner, front, limit), owner, last, limit, true)
  {
    assert (front + [last])[..|front|] == front;
  }

  /** The pool of the next lemma, and what the two loops make of its sizes. */
  lemma ThreeSizes(a: Node, b: Node, c: Node, limit: nat)
    requires a.valueSize == 100 && b.valueSize == FAILED_READ && c.valueSize == 8421 && limit == 8520
    ensures SessionSize([a], limit) == 100 && SessionSize([a, b], limit) == 99 && SessionSize([a, b, c], limit) == 8520
    ensures FlushCount([a, b, c], limit) == 3 && BytesTo([a, b, c], 2) > limit
  {
    var s := [a, b, c];
    assert Size16([a], limit, 1, 100) == 100;
    assert Size16([a, b], limit, 1, 100) == Size16([a, b], limit, 2, 99) == 99;
    assert Size16(s, limit, 1, 100) == Size16(s, limit, 2, 99) == 8520;
    assert CountFrom(s, limit, 1, 100) == CountFrom(s, limit, 2, 99) == 3;
    assert BytesTo(s, 1) == 100;
  }

  /** A run in which a failed read makes the batch of a flush longer than the shortest prefix over the limit. */
  lemma FailedReadBreaksBatch(n: Node)
    ensures var limit := 6 * ValueBufferSize(1500);
            var s := [n.(valueSize := 100), n.(valueSize := FAILED_READ), n.(valueSize := 8421)];
            && PoolAfter(OwnedBy(n), s, limit) == Pool([], [s])
            && !IsBatch(s, limit, |s|)
  {
    hide SessionSize, FlushCount, BytesTo;
    var limit := 6 * ValueBufferSize(1500);
    var a, b, c := n.(valueSize := 100), n.(valueSize := FAILED_READ), n.(valueSize := 8421);
    ThreeSizes(a, b, c, limit);
    assert [] + [a] == [a] && [a] + [b] == [a, b] && [a, b] + [c] == [a, b, c];
    PoolAfterSnoc(OwnedBy(n), [], a, limit);
    PoolAfterSnoc(OwnedBy(n), [a], b, limit);
    PoolAfterSnoc(OwnedBy(n), [a, b], c, limit);
    FlushOfAll([a, b, c], [], limit);
    assert PoolAfter(OwnedBy(n), [], limit) == Pool([], []);
    hide PoolAfter, Flush;
  }

  // -------------------------------------------------------------- the session

  method SortInPlace(v: array<Node>, c: nat)
    requires c <= v.Length
    modifies v
    ensures v[..c] == SortByArrival(old(v[..c])) && v[c..] == old(v[c..])
  {
    ghost var s := v[..c];
    if c < 2 {
      SortOfShort(s);
      return;
    }
    assert v[..1] == SortByArrival(s[..1]) by { SortOfShort(s[..1]); }
    for i := 1 to c
      invariant v[..i] == SortByArrival(s[..i]) && v[i..] == old(v[i..])
    {
      assert v[i] == s[i] && s[..i + 1][..i] == s[..i];
      InsertInPlace(v, i);
    }
    assert s[..c] == s;
  }

  /** One turn of the outer loop: shift the later arrivals up, then drop the key in. */
  method InsertInPlace(v: array<Node>, i: nat)
    requires i < v.Length
    modifies v
    ensures v[..i + 1] == Insert(old(v[..i]), old(v[i])) && v[i + 1..] == old(v[i + 1..])
  {
    hide Insert;
    ghost var s := v[..i];
    var key := v[i];
    var j := i;
    while j > 0 && v[j - 1].arrival > key.arrival
      invariant j <= i
      invariant forall k :: j <= k < i ==> s[k].arrival > key.arrival
      invariant forall k :: 0 <= k < j ==> v[k] == s[k]
      invariant forall k :: j < k <= i ==> v[k] == s[k - 1]
      invariant forall k :: i < k < v.Length ==> v[k] == old(v[k])
    {
      v[j] := v[j - 1];
      j := j - 1;
    }
    v[j] := key;
    ShiftedIsInserted(s, key, j, v[..i + 1]);
  }

  lemma ShiftedIsInserted(s: seq<Node>, key: Node, j: nat, t: seq<Node>)
    requires j <= |s| && |t| == |s| + 1 && (j == 0 || s[j - 1].arrival <= key.arrival)
    requires forall k :: j <= k < |s| ==> s[k].arrival > key.arrival
    requires t[j] == key && forall k :: 0 <= k < j ==> t[k] == s[k]
    requires forall k :: j < k < |t| ==> t[k] == s[k - 1]
    ensures t == Insert(s, key)
  {
    InsertLandsAt(s, key, j);
    assert t == (s[..j] + [key]) + s[j..];
  }

  lemma {:induction false} InsertLandsAt(s: seq<Node>, key: Node, j: nat)
    requires j <= |s| && (j == 0 || s[j - 1].arrival <= key.arrival)
    requires forall k :: j <= k < |s| ==> s[k].arrival > key.arrival
    ensures Insert(s, key) == (s[..j] + [key]) + s[j..]
    decreases |s|
  {
    if j == |s| {
      assert s[..j] == s;
    } else {
      var front := s[..|s| - 1];
      InsertLandsAt(front, key, j);
      assert front[..j] == s[..j] && front[j..] + [s[|s| - 1]] == s[j..];
    }
  }

  lemma SortOfShort(s: seq<Node>)
    requires |s| < 2
    ensures SortByArrival(s) == s
  {
    if |s| == 1 { assert s[..0] == []; }
  }

  /** `__bcpy` of whole nodes towards the front of the array. */
  method MoveToFront(v: array<Node>, from: nat, count: nat)
    requires from + count <= v.Length
    modifies v
    ensures v[..] == Moved(old(v[..]), from, 0, count)
  {
    ghost var m := v[..];
    for k := 0 to count
      invariant forall i :: 0 <= i < k ==> v[i] == m[from + i]
      invariant forall i :: k <= i < v.Length ==> v[i] == m[i]
    {
      v[k] := v[from + k];
    }
  }

  class Session {
    const owner: Owner
    const limit: nat
    /** Null once the pool could not grow. */
    var pool: array?<Node>
    var poolCount: nat
    var poolSize: nat
    var hasCallback: bool
    /** Every batch given to the send callback. */
    ghost var sent: seq<seq<Node>>

    ghost predicate Valid()
      reads this
    {
      pool != null && pool.Length == poolSize && poolCount <= poolSize
    }

    ghost function Abstract(): Pool
      requires Valid()
      reads this, pool
    {
      Pool(pool[..poolCount], sent)
    }

    /** `insert_session`: room for 0x400 nodes, none of them used. */
    constructor (owner: Owner, limit: nat, hasCallback: bool, filler: Node)
      ensures Valid() && fresh(pool)
      ensures Abstract() == Pool([], []) && poolSize == 0x400
      ensures this.owner == owner && this.limit == limit && this.hasCallback == hasCallback
    {
      this.owner, this.limit, this.hasCallback := owner, limit, hasCallback;
      pool := new Node[0x400](_ => filler);
      poolCount, poolSize := 0, 0x400;
      sent := [];
    }

    method GetSessionSize(max: nat) returns (total: nat)
      requires Valid()
      ensures total == SessionSize(Abstract().nodes, max)
    {
      total := 0;
      var n := 0;
      while n < poolCount
        invariant n <= poolCount && total < U16
        invariant Size16(pool[..poolCount], max, n, total) == SessionSize(pool[..poolCount], max)
      {
        total := (total + pool[n].valueSize) % U16;
        if total >= max { return; }
        n := n + 1;
      }
    }

    /** How many nodes a flush takes; the loop runs at least once. */
    method CountForFlush() returns (count: nat)
      requires Valid() && poolCount > 0
      ensures count == FlushCount(Abstract().nodes, limit)
    {
      var siz: nat := 0;
      count := 0;
      while true
        invariant count < poolCount
        invariant CountFrom(pool[..poolCount], limit, count, siz) == FlushCount(pool[..poolCount], limit)
        decreases poolCount - count
      {
        siz := (siz + pool[count].valueSize) % U32;
        count := count + 1;
        if !(siz <= limit && count < poolCount) { return; }
      }
    }

    /** Room for one more node: the capacity doubles.  Without memory the pool is lost, and the worker ends. */
    method Reserve(memory: bool, filler: Node) returns (ok: bool)
      requires Valid() && poolSize > 0
      modifies this`pool, this`poolSize
      ensures ok <==> memory || old(poolCount < poolSize)
      ensures ok ==> Valid() && Abstract() == old(Abstract()) && poolCount < poolSize
      ensures ok ==> pool == old(pool) || fresh(pool)
      ensures poolSize == if old(poolCount < poolSize) then old(poolSize) else 2 * old(poolSize)
      ensures !ok ==> pool == null
    {
      ok := true;
      if poolCount + 1 > poolSize {
        ghost var nodes := pool[..poolCount];
        poolSize := poolSize * 2;
        pool := Realloc(memory, filler);
        if pool == null { return false; }
        assert pool[..poolCount] == nodes;
      }
    }

    /** `realloc` of the pool to its new size. */
    method Realloc(memory: bool, filler: Node) returns (bigger: array?<Node>)
      requires pool != null && poolCount <= pool.Length <= poolSize
      ensures if memory then bigger != null && fresh(bigger) && bigger.Length == poolSize
                             && bigger[..poolCount] == pool[..poolCount]
              else bigger == null
    {
      if !memory { return null; }
      bigger := new Node[poolSize](_ => filler);
      for k := 0 to poolCount
        invariant bigger[..k] == pool[..k]
      {
        bigger[k] := pool[k];
      }
    }

    /** Moves what stands behind the batch to the front, and sorts it. */
    method RemoveBatch(count: nat)
      requires Valid() && count <= poolCount
      modifies this`poolCount, pool
      ensures Valid() && Abstract().nodes == SortByArrival(old(Abstract().nodes)[count..])
    {
      hide SortByArrival;
      ghost var nodes := Abstract().nodes;
      MoveToFront(pool, count, poolCount - count);
      poolCount := poolCount - count;
      assert pool[..poolCount] == nodes[count..];
      SortInPlace(pool, poolCount);
    }

    /** What `process_session_node` does once the limit is reached. */
    method FlushPool()
      requires Valid() && poolCount > 0
      modifies this`poolCount, this`sent, pool
      ensures Valid() && Abstract() == Flush(old(Abstract()), limit, hasCallback)
    {
      hide SortByArrival, FlushCount;
      ghost var nodes := Abstract().nodes;
      var count := CountForFlush();
      if hasCallback {
        sent := sent + [pool[..count]];
        assert pool[..count] == nodes[..count];
      }
      if count <= poolCount {
        RemoveBatch(count);
      } else {
        assert false;  // the reset of the pool count is never reached
      }
    }

    /** `process_session_node`, for the node in the reader's slot. */
    method ProcessNode(n: Node)
      requires Valid() && poolCount < poolSize
      modifies this`poolCount, this`sent, pool
      ensures Valid() && Abstract() == Process(old(Abstract()), owner, n, limit, hasCallback)
      ensures Abstract() != old(Abstract()) ==>
                && owner.OwnedBy? && n.fd == owner.node.fd && n.port == owner.node.port
                && n.family == owner.node.family
                && (n.family == Inet ==> n.ipv4[4..8] == owner.node.ipv4[4..8])
                && (n.family == Inet6 ==> n.ipv6[8..24] == owner.node.ipv6[8..24])
    {
      if Selects(owner, n) {
        pool[poolCount] := n;
        poolCount := poolCount + 1;
        assert pool[..poolCount] == old(Abstract()).nodes + [n];
        var size := GetSessionSize(limit);
        if size >= limit && poolSize > 0 {
          FlushPool();
        }
      }
    }

    /** One turn of `session_worker`: make room, then process the node in the slot. */
    method WorkerTurn(n: Node, memory: bool) returns (ok: bool)
      requires Valid() && poolSize > 0
      modifies this`pool, this`poolSize, this`poolCount, this`sent, pool
      ensures ok <==> memory || old(poolCount < poolSize)
      ensures ok ==> Valid() && Abstract() == Process(old(Abstract()), owner, n, limit, hasCallback)
      ensures !ok ==> pool == null && sent == old(sent)
    {
      ok := Reserve(memory, n);
      if ok { ProcessNode(n); }
    }
  }
}
