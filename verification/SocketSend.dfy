/**
What the socket takes of a batch: `tcp_send_to_client` of `src/socket/socket_tcp.c` and
`udp_send_to_client` of `src/socket/socket_udp.c`.
*/
module SocketSend {
  import WordMemory
  import opened SessionPool

  const VALUE_OUTPUT_SIZE := 6

  /** `struct iovec`, with what its base points to. */
  datatype Iovec = Iovec(base: seq<WordMemory.Byte>, len: nat)

  /** The nodes of a batch that go out. */
  function OnTheWire(batch: seq<Node>): (out: seq<Node>)
    ensures out <= batch && |out| == if |batch| > 6 then 6 else |batch|
  {
    if |batch| > VALUE_OUTPUT_SIZE then batch[..VALUE_OUTPUT_SIZE] else batch
  }

  /** Fills the vector for `writev` or `sendmsg`; `siz` is how much of it is passed on. */
  method SendToClient(iovs: array<Iovec>, n: array<Node>, nLen: nat) returns (siz: nat)
    requires iovs.Length == VALUE_OUTPUT_SIZE && nLen <= n.Length
    modifies iovs
    ensures siz == |OnTheWire(n[..nLen])|
    ensures forall k :: 0 <= k < siz ==> iovs[k] == Iovec(n[k].value, n[k].valueSize) && n[k] == OnTheWire(n[..nLen])[k]
    ensures forall k :: siz <= k < iovs.Length ==> iovs[k] == old(iovs[k])
  {
    if nLen == 0 { return 0; }
    siz := if nLen > 6 then 6 else nLen;
    var k := 0;
    while true
      invariant k < siz
      invariant forall i :: 0 <= i < k ==> iovs[i] == Iovec(n[i].value, n[i].valueSize)
      invariant forall i :: k <= i < iovs.Length ==> iovs[i] == old(iovs[i])
      decreases siz - k
    {
      iovs[k] := Iovec(n[k].value, n[k].valueSize);
      k := k + 1;
      if !(k < siz) { break; }
    }
  }

  // -------------------------------------------------------------- what is lost

  /** Of each batch what goes out, and what is left of it from its seventh node on. */
  function Wired(batches: seq<seq<Node>>): (out: seq<seq<Node>>)
    ensures |out| == |batches|
  {
    seq(|batches|, i requires 0 <= i < |batches| => OnTheWire(batches[i]))
  }

  function Lost(batches: seq<seq<Node>>): (lost: seq<seq<Node>>)
    ensures |lost| == |batches|
    ensures forall i :: 0 <= i < |lost| ==> OnTheWire(batches[i]) + lost[i] == batches[i]
  {
    seq(|batches|, i requires 0 <= i < |batches| => if |batches[i]| > 6 then batches[i][6..] else [])
  }

  lemma OneBatchMore(front: seq<seq<Node>>, last: seq<Node>)
    ensures var all, out, lost := front + [last], OnTheWire(last), last[|OnTheWire(last)|..];
            && last == out + lost
            && Concat(all) == Concat(front) + last
            && Concat(Wired(all)) == Concat(Wired(front)) + out
            && Concat(Lost(all)) == Concat(Lost(front)) + lost
  {
    hide Concat;
    var all, out, lost := front + [last], OnTheWire(last), last[|OnTheWire(last)|..];
    assert Wired(all) == Wired(front) + [out];
    assert Lost(all) == Lost(front) + [lost];
    hide Wired, Lost;
    ConcatSnoc(front, last);
    ConcatSnoc(Wired(front), out);
    ConcatSnoc(Lost(front), lost);
  }

  lemma {:induction false} WiredAndLost(batches: seq<seq<Node>>)
    ensures multiset(Concat(Wired(batches))) + multiset(Concat(Lost(batches))) == multiset(Concat(batches))
    decreases |batches|
  {
    if |batches| != 0 {
      var front, last := batches[..|batches| - 1], batches[|batches| - 1];
      WiredAndLost(front);
      OneBatchMore(front, last);
      assert batches == front + [last];
      hide Concat, Wired, Lost, OnTheWire;
    }
  }

  /**
  Over a whole run of the worker, what it accepted is what went out, the first six nodes of each
  batch, what was lost, the others of each batch, and what is in the pool.
  */
  lemma RunLosesFromTheSeventh(owner: Owner, seen: seq<Node>, limit: nat, max: nat)
    requires 0 < limit && limit - 1 + max <= 0xFFFF && SizesAtMost(seen, max)
    ensures var p := PoolAfter(owner, seen, limit);
            var out, lost := Wired(p.sent), Lost(p.sent);
            && (forall i :: 0 <= i < |p.sent| ==>
                  out[i] <= p.sent[i] && p.sent[i] == out[i] + lost[i] && (lost[i] != [] ==> |out[i]| == 6))
            && multiset(Accepted(owner, seen))
               == multiset(Concat(out)) + multiset(Concat(lost)) + multiset(p.nodes)
  {
    var p := PoolAfter(owner, seen, limit);
    forall i | 0 <= i < |p.sent|
      ensures var out, lost := Wired(p.sent), Lost(p.sent);
              out[i] <= p.sent[i] && p.sent[i] == out[i] + lost[i] && (lost[i] != [] ==> |out[i]| == 6)
    {
    }
    hide PoolAfter, Accepted, Concat, Wired, Lost;
    RunConserves(owner, seen, limit, max);
    WiredAndLost(p.sent);
  }

  /** Full nodes are needed to reach a number of bytes with no more nodes than that takes. */
  lemma {:induction false} BytesAtMost(s: seq<Node>, max: nat, k: nat, i: nat)
    requires SizesAtMost(s, max) && i < k <= |s|
    ensures BytesTo(s, k) <= k * max - (max - s[i].valueSize)
    decreases k
  {
    if i == k - 1 {
      AllBytesAtMost(s, max, k - 1);
    } else {
      BytesAtMost(s, max, k - 1, i);
    }
    assert k * max == (k - 1) * max + max;
  }

  lemma {:induction false} AllBytesAtMost(s: seq<Node>, max: nat, k: nat)
    requires SizesAtMost(s, max) && k <= |s|
    ensures BytesTo(s, k) <= k * max
    decreases k
  {
    if k != 0 {
      AllBytesAtMost(s, max, k - 1);
      assert k * max == (k - 1) * max + max;
    }
  }

  /** A batch of six times the largest size has at least six nodes, and goes out whole only if it is six full ones. */
  lemma WholeOnTheWireIff(batch: seq<Node>, max: nat)
    requires 0 < max && SizesAtMost(batch, max) && Bytes(batch) >= 6 * max
    ensures |batch| >= 6
    ensures OnTheWire(batch) == batch <==> |batch| == 6 && forall i :: 0 <= i < 6 ==> batch[i].valueSize == max
  {
    AllBytesAtMost(batch, max, |batch|);
    if |batch| == 6 {
      forall i | 0 <= i < 6 ensures batch[i].valueSize == max { BytesAtMost(batch, max, 6, i); }
    }
  }

  lemma {:induction false} BatchIsInConcat(batches: seq<seq<Node>>, i: nat)
    requires i < |batches|
    ensures forall n <- batches[i] :: n in Concat(batches)
    decreases |batches|
  {
    if i < |batches| - 1 { BatchIsInConcat(batches[..|batches| - 1], i); }
  }

  /** So with either MTU profile, every batch of every run loses nodes on the wire unless it is six full messages. */
  lemma MtuBatchIsWholeIff(mtu: nat, owner: Owner, seen: seq<Node>, i: nat)
    requires mtu == 1500 || mtu == 9000
    requires SizesAtMost(seen, ValueBufferSize(mtu))
    requires i < |PoolAfter(owner, seen, 6 * ValueBufferSize(mtu)).sent|
    ensures var max := ValueBufferSize(mtu);
            var batch := PoolAfter(owner, seen, 6 * max).sent[i];
            && |batch| >= 6
            && (OnTheWire(batch) == batch <==> |batch| == 6 && forall k :: 0 <= k < 6 ==> batch[k].valueSize == max)
  {
    hide PoolAfter;
    var max := ValueBufferSize(mtu);
    var p := PoolAfter(owner, seen, 6 * max);
    var batch, all := p.sent[i], Concat(p.sent) + p.nodes;
    RunConserves(owner, seen, 6 * max, max);
    AcceptedIsSeen(owner, seen);
    BatchIsInConcat(p.sent, i);
    forall k | 0 <= k < |batch| ensures batch[k].valueSize <= max {
      assert batch[k] in Concat(p.sent);
      assert batch[k] in all;
      assert batch[k] in seen;
    }
    WholeOnTheWireIff(batch, max);
  }
}
