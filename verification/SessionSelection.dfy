/**
Which nodes a session takes, by `node_cmp` of `src/include/__node_cmp.h`, and what that makes of the
addresses that `src/socket/socket_udp.c` and `src/socket/socket_tcp.c` store in a node.
*/
module SessionSelection {
  import opened WordMemory
  import opened SessionPool

  lemma AcceptedSnoc(owner: Owner, seen: seq<Node>, n: Node)
    ensures Accepted(owner, seen + [n]) == Accepted(owner, seen) + if Selects(owner, n) then [n] else []
  {
    assert (seen + [n])[..|seen|] == seen;
  }

  /**
  A session takes the nodes with its node's fd, port and family, and with the same four bytes at the
  place of an IPv4 address or the same sixteen at that of an IPv6 address: each as often as it
  was seen, and no others.
  */
  lemma {:induction false} AcceptedAreItsOwn(o: Node, seen: seq<Node>, n: Node)
    ensures multiset(Accepted(OwnedBy(o), seen))[n]
            == if && n.fd == o.fd && n.port == o.port && n.family == o.family
                  && (n.family == Inet ==> n.ipv4[4..8] == o.ipv4[4..8])
                  && (n.family == Inet6 ==> n.ipv6[8..24] == o.ipv6[8..24])
               then multiset(seen)[n] else 0
    decreases |seen|
  {
    if seen != [] {
      var front, last := seen[..|seen| - 1], seen[|seen| - 1];
      AcceptedAreItsOwn(o, front, n);
      assert seen == front + [last];
      AcceptedSnoc(OwnedBy(o), front, last);
    }
  }

  /** A session without a node takes none. */
  lemma {:induction false} NoOwnerTakesNothing(seen: seq<Node>)
    ensures Accepted(NoOwner, seen) == []
    decreases |seen|
  {
    if seen != [] { NoOwnerTakesNothing(seen[..|seen| - 1]); }
  }

  /** So two sessions that take one node agree on all of these. */
  lemma SessionsThatShareANode(o: Node, p: Node, seen: seq<Node>, looked: seq<Node>, n: Node)
    requires n in Accepted(OwnedBy(o), seen) && n in Accepted(OwnedBy(p), looked)
    ensures o.fd == p.fd == n.fd && o.port == p.port == n.port && o.family == p.family == n.family
    ensures n.family == Inet ==> o.ipv4[4..8] == p.ipv4[4..8] == n.ipv4[4..8]
    ensures n.family == Inet6 ==> o.ipv6[8..24] == p.ipv6[8..24] == n.ipv6[8..24]
  {
    hide Accepted;
    assert multiset(Accepted(OwnedBy(o), seen))[n] > 0 && multiset(Accepted(OwnedBy(p), looked))[n] > 0;
    AcceptedAreItsOwn(o, seen, n);
    AcceptedAreItsOwn(p, looked, n);
  }

  /** What a session has sent and still holds, in every run of its worker alone: its own nodes of those it saw. */
  lemma SessionHasItsOwn(o: Node, seen: seq<Node>, limit: nat, max: nat, n: Node)
    requires 0 < limit && limit - 1 + max <= 0xFFFF && SizesAtMost(seen, max)
    ensures var p := PoolAfter(OwnedBy(o), seen, limit);
            multiset(Concat(p.sent) + p.nodes)[n]
            == if && n.fd == o.fd && n.port == o.port && n.family == o.family
                  && (n.family == Inet ==> n.ipv4[4..8] == o.ipv4[4..8])
                  && (n.family == Inet6 ==> n.ipv6[8..24] == o.ipv6[8..24])
               then multiset(seen)[n] else 0
  {
    hide PoolAfter, Accepted, Concat;
    RunConserves(OwnedBy(o), seen, limit, max);
    AcceptedAreItsOwn(o, seen, n);
  }

  /** One node processed on top of any pool: it is kept or sent if it is the session's, and nothing else is. */
  lemma ProcessTakesItsOwn(p: Pool, o: Node, n: Node, limit: nat)
    ensures var q := Process(p, OwnedBy(o), n, limit, true);
            var own := n.fd == o.fd && n.port == o.port && n.family == o.family
                       && (n.family == Inet ==> n.ipv4[4..8] == o.ipv4[4..8])
                       && (n.family == Inet6 ==> n.ipv6[8..24] == o.ipv6[8..24]);
            multiset(Concat(q.sent)) + multiset(q.nodes)
            == multiset(Concat(p.sent)) + multiset(p.nodes) + if own then multiset{n} else multiset{}
  {
    hide FlushCount, SessionSize, SortByArrival, Concat, Flush;
    var all := Pool(p.nodes + [n], p.sent);
    if Selects(OwnedBy(o), n) {
      assert multiset(all.nodes) == multiset(p.nodes) + multiset{n};
      if SessionSize(all.nodes, limit) >= limit { FlushKeepsNodes(all, limit); }
    }
  }

  lemma FlushKeepsNodes(p: Pool, limit: nat)
    requires p.nodes != []
    ensures var q := Flush(p, limit, true);
            multiset(Concat(q.sent)) + multiset(q.nodes) == multiset(Concat(p.sent)) + multiset(p.nodes)
  {
    FlushSplitsPool(p, limit, 0);
    hide Flush, Concat;
    var q := Flush(p, limit, true);
    ConcatSnoc(p.sent, q.sent[|p.sent|]);
    assert q.sent == p.sent + [q.sent[|p.sent|]];
  }

  // -------------------------------------------------------------- the addresses of received nodes

  /** The receivers copy an address to the start of the field, where a `sockaddr` has its family and port. */
  function Stored(field: SockAddr, addr: seq<Byte>): (s: SockAddr)
    requires |addr| == 4
    ensures s[..4] == addr && s[4..] == field[4..]
  {
    addr + field[4..]
  }

  function Stored6(field: SockAddr6, addr: seq<Byte>): (s: SockAddr6)
    requires |addr| == 16
    ensures s[..16] == addr && s[16..] == field[16..]
  {
    addr + field[16..]
  }

  /**
  So whatever IPv4 addresses are stored in a session's node and in one it looks at, they do not
  decide whether it takes the node: that is left to what was in the fields before.
  */
  lemma StoredAddressIsNotCompared(o: Node, n: Node, a: seq<Byte>, b: seq<Byte>)
    requires |a| == |b| == 4 && o.family == n.family == Inet
    ensures var o', n' := o.(ipv4 := Stored(o.ipv4, a)), n.(ipv4 := Stored(n.ipv4, b));
            n' in Accepted(OwnedBy(o'), [n']) <==> n.fd == o.fd && n.port == o.port && n.ipv4[4..8] == o.ipv4[4..8]
  {
    var o', n' := o.(ipv4 := Stored(o.ipv4, a)), n.(ipv4 := Stored(n.ipv4, b));
    AcceptedOfOne(o', n');
    assert o'.ipv4[4..8] == o'.ipv4[4..][..4] && n'.ipv4[4..8] == n'.ipv4[4..][..4];
    assert o.ipv4[4..8] == o.ipv4[4..][..4] && n.ipv4[4..8] == n.ipv4[4..][..4];
  }

  /** Of an IPv6 address the second half decides, and eight bytes behind it that it was not stored in. */
  lemma StoredAddress6HalfCompared(o: Node, n: Node, a: seq<Byte>, b: seq<Byte>)
    requires |a| == |b| == 16 && o.family == n.family == Inet6
    ensures var o', n' := o.(ipv6 := Stored6(o.ipv6, a)), n.(ipv6 := Stored6(n.ipv6, b));
            n' in Accepted(OwnedBy(o'), [n'])
            <==> n.fd == o.fd && n.port == o.port && a[8..] == b[8..] && n.ipv6[16..24] == o.ipv6[16..24]
  {
    var o', n' := o.(ipv6 := Stored6(o.ipv6, a)), n.(ipv6 := Stored6(n.ipv6, b));
    AcceptedOfOne(o', n');
    HalvesOf(o.ipv6, a);
    HalvesOf(n.ipv6, b);
    assert o'.ipv6[8..24][..8] == a[8..] && o'.ipv6[8..24][8..] == o.ipv6[16..24];
    assert n'.ipv6[8..24][..8] == b[8..] && n'.ipv6[8..24][8..] == n.ipv6[16..24];
  }

  lemma HalvesOf(field: SockAddr6, addr: seq<Byte>)
    requires |addr| == 16
    ensures Stored6(field, addr)[8..24] == addr[8..] + field[16..24]
  {
  }

  lemma AcceptedOfOne(o: Node, n: Node)
    ensures n in Accepted(OwnedBy(o), [n])
            <==> && n.fd == o.fd && n.port == o.port && n.family == o.family
                 && (n.family == Inet ==> n.ipv4[4..8] == o.ipv4[4..8])
                 && (n.family == Inet6 ==> n.ipv6[8..24] == o.ipv6[8..24])
  {
    hide Accepted;
    AcceptedAreItsOwn(o, [n], n);
    assert n in Accepted(OwnedBy(o), [n]) <==> multiset(Accepted(OwnedBy(o), [n]))[n] > 0;
  }

  /** The session of 10.0.0.1 takes a datagram from 10.0.0.2 on its socket and from its port. */
  lemma ForeignDatagramIsTaken(n: Node, o: Node)
    requires o == Node(5, 4000, Inet, Stored(NO_ADDR, [10, 0, 0, 1]), NO_ADDR6, 0, 0, [])
    requires n == o.(ipv4 := Stored(NO_ADDR, [10, 0, 0, 2]), valueSize := 1, value := [0])
    ensures n in Accepted(OwnedBy(o), [n])
  {
    AcceptedOfOne(o, n);
    assert n.ipv4[4..8] == n.ipv4[4..][..4] && o.ipv4[4..8] == o.ipv4[4..][..4];
  }
}
