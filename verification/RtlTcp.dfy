/**
 The buffer queue of src/rtl_tcp.c between the sample callback and the sending thread: a
 linked list that grows at its end, loses its head when it is long enough, and is taken over
 whole. Both threads work on it under one mutex, so a run is a sequence of such operations.
 */
module RtlTcp {
  import opened Collections

  type Buffer = seq<int>

  /** What appending does to the queued buffers, for llbuf_num == limit. */
  function Appended(list: seq<Buffer>, b: Buffer, limit: int): (r: seq<Buffer>) {
    if list == [] then [b]
    else if limit != 0 && limit == |list| - 1 - 2 then list[1..] + [b]
    else list + [b]
  }

  /** The list loses its only node, to which the new one is then linked. */
  predicate LinksToFreed(list: seq<Buffer>, limit: int) {
    limit == -2 && |list| == 1
  }

  class Node {
    const data: Buffer
    var next: Node?

    constructor (data: Buffer)
      ensures this.data == data && next == null
    {
      this.data := data;
      next := null;
    }
  }

  /** The nodes, all different, are linked in order from the head, and the last links to nothing. */
  ghost predicate IsChain(head: Node?, nodes: seq<Node>)
    reads nodes
  {
    && (head == null <==> nodes == [])
    && (nodes != [] ==> head == nodes[0] && nodes[|nodes| - 1].next == null)
    && (forall i :: 0 <= i < |nodes| - 1 ==> nodes[i].next == nodes[i + 1])
    && (forall i, j :: 0 <= i < j < |nodes| ==> nodes[i] != nodes[j])
  }

  ghost function Buffers(nodes: seq<Node>): seq<Buffer> {
    seq(|nodes|, i requires 0 <= i < |nodes| => nodes[i].data)
  }

  lemma OnlyLastEnds(head: Node?, nodes: seq<Node>, i: nat)
    requires IsChain(head, nodes) && i < |nodes| && nodes[i].next == null
    ensures i == |nodes| - 1
    ensures |nodes| > 1 ==> IsChain(nodes[0].next, nodes[1..]) && nodes[1..][|nodes| - 2] == nodes[i]
  {
    forall j | 0 <= j < |nodes| - 1
      ensures nodes[j].next != null
    {
      var follower: Node := nodes[j + 1];
      assert nodes[j].next == follower;
    }
    forall j | 0 <= j < |nodes| - 2
      ensures nodes[1..][j].next == nodes[1..][j + 1]
    {
      assert nodes[j + 1].next == nodes[j + 2];
    }
  }

  lemma AppendedBuffers(nodes: seq<Node>, rpt: Node, limit: int)
    requires nodes != []
    ensures Appended(Buffers(nodes), rpt.data, limit)
            == Buffers((if limit != 0 && limit == |nodes| - 3 then nodes[1..] else nodes) + [rpt])
  {
  }

  /** Linking a new node after the last one, or after one that is not in the list any more. */
  method Link(ghost head: Node?, ghost nodes: seq<Node>, last: Node, rpt: Node)
    requires IsChain(head, nodes) && (nodes == [] || last == nodes[|nodes| - 1])
    requires rpt !in nodes && rpt.next == null
    modifies last
    ensures nodes == [] ==> IsChain(head, [])
    ensures nodes != [] ==> IsChain(head, nodes + [rpt])
  {
    last.next := rpt;
  }

  // ---- sending

  /** One turn of the loop around `send`: what it did, and whether the program was told to exit. */
  datatype Attempt = Attempt(send: Send, doExit: bool)
  /** The socket was not ready, took so many of the bytes offered (all of them if fewer are left), or failed. */
  datatype Send = NotReady | Accepted(count: nat) | Failed
  /** All sent, the thread exited, or still sending when the script of attempts ended. */
  datatype Outcome = Done | Exited | Sending

  /** The thread exits after a failed send, or when told to. */
  predicate Stops(a: Attempt) {
    a.send.Failed? || a.doExit
  }

  /** The attempts of a range in which the socket took at least one byte. */
  function Accepting(attempts: seq<Attempt>, first: nat, last: nat): nat
    requires first <= last <= |attempts|
  {
    if last == first then 0
    else
      var a := attempts[last - 1].send;
      Accepting(attempts, first, last - 1) + if a.Accepted? && a.count > 0 then 1 else 0
  }

  /** Sends one buffer from attempt n0 on; index counts the bytes taken, n the attempts. */
  method SendBuffer(data: Buffer, attempts: seq<Attempt>, n0: nat) returns (index: nat, n: nat, outcome: Outcome)
    requires n0 <= |attempts|
    ensures index <= |data| && n0 <= n <= |attempts|
    ensures outcome.Done? ==> index == |data|
    ensures forall i :: n0 <= i < n ==> (Stops(attempts[i]) <==> outcome.Exited? && i == n - 1)
    ensures outcome.Exited? ==> n > n0
    ensures outcome.Sending? ==> n == |attempts| && index < |data|
    ensures index >= Accepting(attempts, n0, n)
  {
    var bytesleft := |data|;
    index, n := 0, n0;
    while bytesleft > 0
      invariant bytesleft >= 0 && index + bytesleft == |data| && n0 <= n <= |attempts|
      invariant forall i :: n0 <= i < n ==> !Stops(attempts[i])
      invariant index >= Accepting(attempts, n0, n)
      decreases |attempts| - n
    {
      if n == |attempts| { return index, n, Sending; }
      var attempt := attempts[n];
      n := n + 1;
      if attempt.send.Accepted? {
        var bytessent := if attempt.send.count <= bytesleft then attempt.send.count else bytesleft;
        bytesleft := bytesleft - bytessent;
        index := index + bytessent;
      }
      if attempt.send.Failed? || attempt.doExit { return index, n, Exited; }
    }
    outcome := Done;
  }

  /**
   The sending loop of tcp_worker, without the lock: what the socket takes, over any number of
   partial sends, is a prefix of the buffers of the list, and all of them unless it exits.
   */
  method SendAll(taken: Node?, ghost nodes: seq<Node>, attempts: seq<Attempt>) returns (sent: Buffer, outcome: Outcome)
    requires IsChain(taken, nodes)
    ensures sent <= Concat(Buffers(nodes))
    ensures outcome.Done? ==> sent == Concat(Buffers(nodes))
    ensures outcome.Exited? ==> exists i :: 0 <= i < |attempts| && Stops(attempts[i])
    ensures outcome.Sending? ==>
              sent < Concat(Buffers(nodes)) && forall i :: 0 <= i < |attempts| ==> !Stops(attempts[i])
    ensures outcome.Sending? ==> |sent| >= Accepting(attempts, 0, |attempts|)
  {
    var curelem, n := taken, 0;
    ghost var k := 0;
    sent := [];
    while curelem != null
      invariant 0 <= k <= |nodes| && n <= |attempts| && sent == Concat(Buffers(nodes)[..k])
      invariant curelem == if k < |nodes| then nodes[k] else null
      invariant |sent| >= Accepting(attempts, 0, n)
      invariant forall i :: 0 <= i < n ==> !Stops(attempts[i])
      decreases |nodes| - k
    {
      var index;
      ghost var n0 := n;
      index, n, outcome := SendBuffer(curelem.data, attempts, n);
      AcceptingTwice(attempts, n0, n);
      PartOfBuffers(Buffers(nodes), k, index);
      sent := sent + curelem.data[..index];
      if !outcome.Done? { return; }
      assert curelem.data[..index] == curelem.data;
      curelem := curelem.next;
      k := k + 1;
    }
    assert Buffers(nodes)[..k] == Buffers(nodes);
    outcome := Done;
  }

  lemma {:induction false} AcceptingTwice(attempts: seq<Attempt>, m: nat, n: nat)
    requires m <= n <= |attempts|
    ensures Accepting(attempts, 0, n) == Accepting(attempts, 0, m) + Accepting(attempts, m, n)
  {
    if n > m { AcceptingTwice(attempts, m, n - 1); }
  }

  lemma PartOfBuffers(buffers: seq<Buffer>, k: nat, index: nat)
    requires k < |buffers| && index <= |buffers[k]|
    ensures Concat(buffers[..k]) + buffers[k][..index] <= Concat(buffers)
    ensures index < |buffers[k]| ==> Concat(buffers[..k]) + buffers[k][..index] < Concat(buffers)
    ensures Concat(buffers[..k + 1]) == Concat(buffers[..k]) + buffers[k]
  {
    ConcatOne(buffers[..k], buffers[k]);
    assert buffers[..k + 1] == buffers[..k] + [buffers[k]];
    ConcatAppend(buffers[..k + 1], buffers[k + 1..]);
    assert buffers == buffers[..k + 1] + buffers[k + 1..];
  }

  class Queue {
    const llbufNum: int
    var llBuffers: Node?
    ghost var spine: seq<Node>

    ghost predicate Valid()
      reads this, spine
    {
      IsChain(llBuffers, spine)
    }

    /** The queued buffers, oldest first. */
    ghost function Queued(): seq<Buffer>
      reads this
    {
      Buffers(spine)
    }

    constructor (llbufNum: int)
      ensures Valid() && Queued() == [] && this.llbufNum == llbufNum && spine == []
    {
      this.llbufNum := llbufNum;
      llBuffers := null;
      spine := [];
    }

    /**
     rtlsdr_callback under the mutex. `linkedToFreed` tells whether the node it links the new one
     to is the one it has just dropped and freed: exactly when llbuf_num is -2 and one buffer is
     queued. The list is then empty, and what the program does is undefined.
     */
    method Append(buf: Buffer) returns (ghost linkedToFreed: bool)
      requires Valid()
      modifies this, spine
      ensures Valid()
      ensures linkedToFreed <==> LinksToFreed(old(Queued()), llbufNum)
      ensures Queued() == if linkedToFreed then [] else Appended(old(Queued()), buf, llbufNum)
      ensures forall n :: n in spine ==> n in old(spine) || fresh(n)
    {
      var rpt := new Node(buf);
      if llBuffers == null {
        llBuffers := rpt;
        spine := [rpt];
        return false;
      }
      ghost var freed: Node? := null;
      var cur, numQueued := llBuffers, 0;
      while cur.next != null
        invariant 0 <= numQueued < |spine| && cur == spine[numQueued]
        decreases |spine| - numQueued
      {
        cur := cur.next;
        numQueued := numQueued + 1;
      }
      OnlyLastEnds(llBuffers, spine, numQueued);
      if llbufNum != 0 && llbufNum == numQueued - 2 {
        freed := llBuffers;
        llBuffers := llBuffers.next;
        spine := spine[1..];
      }
      hide Appended, Buffers, IsChain;
      Link(llBuffers, spine, cur, rpt);
      linkedToFreed := freed == cur;
      if spine != [] {
        spine := spine + [rpt];
        AppendedBuffers(old(spine), rpt, llbufNum);
      }
    }

    /** The hand-over in tcp_worker under the mutex. */
    method TakeAll() returns (taken: Node?, ghost nodes: seq<Node>)
      requires Valid()
      modifies this
      ensures Valid() && Queued() == []
      ensures IsChain(taken, nodes) && Buffers(nodes) == old(Queued())
    {
      taken, nodes := llBuffers, spine;
      llBuffers := null;
      spine := [];
    }
  }

  // ---- runs

  datatype Op = Produce(buf: Buffer) | Take

  /** Queue, buffers handed to the worker, buffers produced, and which of those were dropped. */
  datatype State = State(list: seq<Buffer>, handed: seq<Buffer>, produced: seq<Buffer>, dropped: seq<bool>)

  /** The buffers not dropped, in order. */
  function Kept(produced: seq<Buffer>, dropped: seq<bool>): seq<Buffer>
    requires |produced| == |dropped|
  {
    if produced == [] then []
    else
      var n := |produced| - 1;
      Kept(produced[..n], dropped[..n]) + if dropped[n] then [] else [produced[n]]
  }

  /** Position of the k-th buffer not dropped. */
  function KeptIndex(dropped: seq<bool>, k: nat): (i: nat)
    ensures i <= |dropped|
  {
    if dropped == [] then 0
    else if dropped[0] then 1 + KeptIndex(dropped[1..], k)
    else if k == 0 then 0
    else 1 + KeptIndex(dropped[1..], k - 1)
  }

  /** Producing marks the oldest queued buffer as dropped exactly when the list loses its head. */
  function Step(s: State, op: Op, limit: int): State {
    match op
    case Produce(b) =>
      var drops := |Appended(s.list, b, limit)| <= |s.list|;
      var i := KeptIndex(s.dropped, |s.handed|);
      var dropped := if drops && i < |s.dropped| then s.dropped[i := true] else s.dropped;
      State(Appended(s.list, b, limit), s.handed, s.produced + [b], dropped + [false])
    case Take => State([], s.handed + s.list, s.produced, s.dropped)
  }

  function Run(ops: seq<Op>, limit: int): State {
    if ops == [] then State([], [], [], []) else Step(Run(ops[..|ops| - 1], limit), ops[|ops| - 1], limit)
  }

  /** Limits that bound the queue: the positive ones, and -1. */
  predicate Limiting(limit: int) {
    limit >= -1 && limit != 0
  }

  /** Between operations: bounded, and nothing but the marked buffers is missing. */
  ghost predicate Inv(s: State, limit: int) {
    && |s.list| <= limit + 3
    && |s.produced| == |s.dropped|
    && s.handed + s.list == Kept(s.produced, s.dropped)
  }

  lemma {:induction false} KeptCons(produced: seq<Buffer>, dropped: seq<bool>)
    requires |produced| == |dropped| && produced != []
    ensures Kept(produced, dropped) == (if dropped[0] then [] else [produced[0]]) + Kept(produced[1..], dropped[1..])
  {
    var n := |produced| - 1;
    if n > 0 {
      KeptCons(produced[..n], dropped[..n]);
      assert produced[..n][1..] == produced[1..][..n - 1] && dropped[..n][1..] == dropped[1..][..n - 1];
    }
  }

  /** Marking the k-th kept buffer removes exactly that one. */
  lemma {:induction false} MarkRemoves(produced: seq<Buffer>, dropped: seq<bool>, k: nat)
    requires |produced| == |dropped| && k < |Kept(produced, dropped)|
    ensures var i, kept := KeptIndex(dropped, k), Kept(produced, dropped);
            && i < |dropped| && !dropped[i]
            && Kept(produced, dropped[i := true]) == kept[..k] + kept[k + 1..]
  {
    KeptCons(produced, dropped);
    hide Kept;
    var first := if dropped[0] then [] else [produced[0]];
    var rest := Kept(produced[1..], dropped[1..]);
    if |first| <= k {
      MarkRemoves(produced[1..], dropped[1..], k - |first|);
      MarkedTail(produced, dropped, KeptIndex(dropped, k));
      CutOut(first, rest, k - |first|);
    } else {
      KeptCons(produced, dropped[0 := true]);
      assert dropped[0 := true][1..] == dropped[1..];
      assert (first + rest)[..0] + (first + rest)[1..] == [] + rest;
    }
  }

  lemma CutOut(first: seq<Buffer>, rest: seq<Buffer>, k: nat)
    requires k < |rest|
    ensures var all, n := first + rest, |first| + k; all[..n] + all[n + 1..] == first + (rest[..k] + rest[k + 1..])
  {
  }

  lemma MarkedTail(produced: seq<Buffer>, dropped: seq<bool>, i: nat)
    requires |produced| == |dropped| && 0 < i < |dropped|
    ensures Kept(produced, dropped[i := true])
            == (if dropped[0] then [] else [produced[0]]) + Kept(produced[1..], dropped[1..][i - 1 := true])
  {
    KeptCons(produced, dropped[i := true]);
    assert dropped[i := true][1..] == dropped[1..][i - 1 := true];
  }

  lemma StepKeepsInv(s: State, op: Op, limit: int)
    requires Inv(s, limit) && Limiting(limit)
    ensures Inv(Step(s, op, limit), limit)
    ensures op.Produce? ==> var t := Step(s, op, limit);
              || (t.dropped == s.dropped + [false] && t.list == s.list + [op.buf])
              || (|s.list| == limit + 3 && t.list == s.list[1..] + [op.buf]
                  && var i := KeptIndex(s.dropped, |s.handed|);
                     i < |s.dropped| && !s.dropped[i] && t.dropped == s.dropped[i := true] + [false])
  {
    var t := Step(s, op, limit);
    match op
    case Take => assert (s.handed + s.list) + [] == s.handed + s.list;
    case Produce(b) =>
      var n := |s.produced|;
      assert t.produced[..n] == s.produced;
      if limit == |s.list| - 3 {
        var kept := Kept(s.produced, s.dropped);
        MarkRemoves(s.produced, s.dropped, |s.handed|);
        assert kept[..|s.handed|] == s.handed && kept[|s.handed| + 1..] == s.list[1..];
        assert t.dropped[..n] == s.dropped[KeptIndex(s.dropped, |s.handed|) := true];
        assert s.handed + (s.list[1..] + [b]) == (s.handed + s.list[1..]) + [b];
      } else {
        assert t.dropped[..n] == s.dropped;
        assert s.handed + (s.list + [b]) == (s.handed + s.list) + [b];
      }
  }

  /**
   In every run with a positive limit, or -1, the queue holds at most limit + 3 buffers, and what
   was handed over, followed by what is queued, is what was produced without the dropped ones.
   */
  lemma {:induction false} RunsKeepInv(ops: seq<Op>, limit: int)
    requires Limiting(limit)
    ensures Inv(Run(ops, limit), limit)
  {
    if ops != [] {
      RunsKeepInv(ops[..|ops| - 1], limit);
      StepKeepsInv(Run(ops[..|ops| - 1], limit), ops[|ops| - 1], limit);
    }
  }

  /** The limit is reached: the bound is exact. */
  lemma {:induction false} BoundIsReached(limit: int, n: nat)
    requires Limiting(limit) && n <= limit + 3
    ensures |Run(seq(n, _ => Produce([])), limit).list| == n
  {
    var ops: seq<Op> := seq(n, _ => Produce([]));
    if n > 0 {
      BoundIsReached(limit, n - 1);
      assert ops[..n - 1] == seq(n - 1, _ => Produce([]));
    }
  }

  /** With limit 0, or one below -2, nothing is dropped. */
  lemma {:induction false} UnlimitedDropsNothing(ops: seq<Op>, limit: int)
    requires limit == 0 || limit < -2
    ensures var s := Run(ops, limit); s.handed + s.list == s.produced && true !in s.dropped
  {
    if ops != [] {
      UnlimitedDropsNothing(ops[..|ops| - 1], limit);
      var s := Run(ops[..|ops| - 1], limit);
      if ops[|ops| - 1].Produce? {
        var b := ops[|ops| - 1].buf;
        assert s.handed + (s.list + [b]) == (s.handed + s.list) + [b];
      } else {
        assert (s.handed + s.list) + [] == s.handed + s.list;
      }
    }
  }

  /**
   With limit -2 a run comes to link to a freed node exactly when it produces twice without a
   hand-over between; up to the first time its states are those of the program.
   */
  lemma MinusTwo(ops: seq<Op>)
    ensures (exists i :: 0 <= i < |ops| && ops[i].Produce? && LinksToFreed(Run(ops[..i], -2).list, -2))
            <==> (exists i :: 0 < i < |ops| && ops[i - 1].Produce? && ops[i].Produce?)
  {
    forall i | 0 <= i < |ops|
      ensures LinksToFreed(Run(ops[..i], -2).list, -2) <==> i > 0 && ops[i - 1].Produce?
    {
      QueuedWithMinusTwo(ops[..i]);
    }
  }

  lemma {:induction false} QueuedWithMinusTwo(ops: seq<Op>)
    ensures |Run(ops, -2).list| == if ops != [] && ops[|ops| - 1].Produce? then 1 else 0
  {
    if ops != [] { QueuedWithMinusTwo(ops[..|ops| - 1]); }
  }
}
