/** Queuing channels between partitions (core/objects/commports.c): a fixed pool of message buffers
    moves between a list of free messages and a list of messages to be received. */
module Channels {
  import opened DynLists

  type Bytes = seq<bv8>

  datatype Status = Ok | OpNotAllowed | InvalidConfig

  function Min(a: nat, b: nat): nat {
    if a < b then a else b
  }

  // ----- a queue of messages -----

  datatype Operation = Send(msg: Bytes) | Receive(size: nat)

  /** The limits of a channel: how many messages, and how long each. */
  datatype Limits = Limits(maxMsgs: nat, maxLength: nat)

  function SendStatus(lim: Limits, q: seq<Bytes>, msg: Bytes): Status {
    if |msg| == 0 || |msg| > lim.maxLength then InvalidConfig
    else if |q| >= lim.maxMsgs then OpNotAllowed
    else Ok
  }

  function ReceiveStatus(lim: Limits, q: seq<Bytes>, size: nat): Status {
    if size == 0 || size > lim.maxLength then InvalidConfig
    else if q == [] then OpNotAllowed
    else Ok
  }

  function After(lim: Limits, q: seq<Bytes>, op: Operation): seq<Bytes> {
    match op
    case Send(msg) => if SendStatus(lim, q, msg) == Ok then q + [msg] else q
    case Receive(size) => if ReceiveStatus(lim, q, size) == Ok then q[1..] else q
  }

  /** The queue after a run. */
  function Final(lim: Limits, q: seq<Bytes>, ops: seq<Operation>): seq<Bytes>
    decreases |ops|
  {
    if ops == [] then q else Final(lim, After(lim, q, ops[0]), ops[1..])
  }

  /** What one operation sends: its message, if that is accepted. */
  function SentBy(lim: Limits, q: seq<Bytes>, op: Operation): seq<Bytes> {
    if op.Send? && SendStatus(lim, q, op.msg) == Ok then [op.msg] else []
  }

  /** What one operation receives, with the size that was asked for. */
  function ReceivedBy(lim: Limits, q: seq<Bytes>, op: Operation): seq<(nat, Bytes)> {
    if op.Receive? && ReceiveStatus(lim, q, op.size) == Ok then [(op.size, q[0][..Min(op.size, |q[0]|)])] else []
  }

  /** The messages whose sending succeeded, in order. */
  function Sent(lim: Limits, q: seq<Bytes>, ops: seq<Operation>): seq<Bytes>
    decreases |ops|
  {
    if ops == [] then [] else SentBy(lim, q, ops[0]) + Sent(lim, After(lim, q, ops[0]), ops[1..])
  }

  /** What successful receptions return, in order, each with the size that was asked for. */
  function Received(lim: Limits, q: seq<Bytes>, ops: seq<Operation>): seq<(nat, Bytes)>
    decreases |ops|
  {
    if ops == [] then [] else ReceivedBy(lim, q, ops[0]) + Received(lim, After(lim, q, ops[0]), ops[1..])
  }

  /** What was received is the front of `all`, each message cut to the size asked for, and `left` is
      the rest. */
  predicate Accounts(all: seq<Bytes>, got: seq<(nat, Bytes)>, left: seq<Bytes>) {
    && |got| <= |all|
    && all[|got|..] == left
    && forall i | 0 <= i < |got| :: got[i].1 == all[i][..Min(got[i].0, |all[i]|)]
  }

  lemma OneMore(x: Bytes, size: nat, all: seq<Bytes>, got: seq<(nat, Bytes)>, left: seq<Bytes>)
    requires Accounts(all, got, left)
    ensures Accounts([x] + all, [(size, x[..Min(size, |x|)])] + got, left)
  {
  }

  lemma FirstAndRest<T>(q: seq<T>, more: seq<T>)
    ensures [] + more == more
    ensures q != [] ==> q + more == [q[0]] + (q[1..] + more)
  {
  }

  lemma Reassociates<T>(a: seq<T>, b: seq<T>, c: seq<T>)
    ensures a + (b + c) == (a + b) + c
  {
  }

  /** One operation before the run that the account is about. */
  lemma AccountsBefore(lim: Limits, q: seq<Bytes>, op: Operation, sent: seq<Bytes>, got: seq<(nat, Bytes)>, left: seq<Bytes>)
    requires Accounts(After(lim, q, op) + sent, got, left)
    ensures Accounts(q + (SentBy(lim, q, op) + sent), ReceivedBy(lim, q, op) + got, left)
  {
    match op
    case Send(msg) =>
      FirstAndRest(got, got);
      FirstAndRest(sent, sent);
      Reassociates(q, [msg], sent);
    case Receive(size) =>
      FirstAndRest(got, got);
      FirstAndRest(q, sent);
      if ReceiveStatus(lim, q, size) == Ok {
        OneMore(q[0], size, q[1..] + sent, got, left);
      }
  }

  /** Over any run nothing is lost, invented, duplicated or reordered: the messages waiting at first
      and those sent are those received, then those waiting at last; and every reception returns its
      message cut to the size asked for. */
  lemma {:induction false} FifoLossless(lim: Limits, q: seq<Bytes>, ops: seq<Operation>)
    ensures Accounts(q + Sent(lim, q, ops), Received(lim, q, ops), Final(lim, q, ops))
    decreases |ops|
  {
    if ops == [] {
      assert q + [] == q;
    } else {
      var q1, rest := After(lim, q, ops[0]), ops[1..];
      FifoLossless(lim, q1, rest);
      AccountsBefore(lim, q, ops[0], Sent(lim, q1, rest), Received(lim, q1, rest), Final(lim, q1, rest));
    }
  }

  /** The queue never exceeds the pool. */
  lemma {:induction false} FinalFits(lim: Limits, q: seq<Bytes>, ops: seq<Operation>)
    requires |q| <= lim.maxMsgs
    ensures |Final(lim, q, ops)| <= lim.maxMsgs
    decreases |ops|
  {
    if ops != [] {
      FinalFits(lim, After(lim, q, ops[0]), ops[1..]);
    }
  }

  function Sends(msgs: seq<Bytes>): (ops: seq<Operation>)
    ensures |ops| == |msgs| && forall i | 0 <= i < |msgs| :: ops[i] == Send(msgs[i])
  {
    seq(|msgs|, i requires 0 <= i < |msgs| => Send(msgs[i]))
  }

  function Receives(size: nat, n: nat): (ops: seq<Operation>)
    ensures |ops| == n && forall i | 0 <= i < n :: ops[i] == Receive(size)
  {
    seq(n, _ => Receive(size))
  }

  /** Messages of the right size, sent in a row, all join the queue while there is room. */
  lemma {:induction false} AllSent(lim: Limits, q: seq<Bytes>, msgs: seq<Bytes>, ops: seq<Operation>)
    requires |q| + |msgs| <= lim.maxMsgs && |ops| == |msgs|
    requires forall i | 0 <= i < |msgs| :: 1 <= |msgs[i]| <= lim.maxLength && ops[i] == Send(msgs[i])
    ensures Final(lim, q, ops) == q + msgs
    decreases |msgs|
  {
    if msgs == [] {
      FirstAndRest(q, q);
      assert q + msgs == q;
    } else {
      AllSent(lim, q + [msgs[0]], msgs[1..], ops[1..]);
      assert (q + [msgs[0]]) + msgs[1..] == q + msgs;
    }
  }

  /** Receptions of the greatest length empty the queue and return its messages whole. */
  lemma {:induction false} AllReceived(lim: Limits, q: seq<Bytes>, ops: seq<Operation>)
    requires |ops| == |q| && forall i | 0 <= i < |q| :: 1 <= |q[i]| <= lim.maxLength && ops[i] == Receive(lim.maxLength)
    ensures Final(lim, q, ops) == []
    ensures var got := Received(lim, q, ops); |got| == |q| && forall i | 0 <= i < |q| :: got[i] == (lim.maxLength, q[i])
    decreases |q|
  {
    if q != [] {
      AllReceived(lim, q[1..], ops[1..]);
      var got, rest := Received(lim, q, ops), Received(lim, q[1..], ops[1..]);
      assert q[0][..|q[0]|] == q[0];
      assert got == [(lim.maxLength, q[0])] + rest;
      forall i | 0 <= i < |q| ensures got[i] == (lim.maxLength, q[i]) {
        assert i > 0 ==> got[i] == rest[i - 1] && q[i] == q[1..][i - 1];
      }
    }
  }

  // ----- the channel on the heap -----

  class Msg {
    const node: Node
    var buffer: Bytes
    var length: nat

    constructor (id: nat, maxLength: nat)
      ensures node.id == id && node.Free() && |buffer| == maxLength && length == 0
      ensures fresh(node)
    {
      node := new Node(id);
      buffer := seq(maxLength, _ => 0);
      length := 0;
    }

    function Text(): Bytes
      requires length <= |buffer|
      reads this
    {
      buffer[..length]
    }
  }

  /** The loop of `setup_comm` that makes the messages of a channel and puts them into its free list. */
  method AllocatePool(lim: Limits, free: DynList) returns (msgs: seq<Msg>)
    requires free.Valid() && free.elems == []
    modifies free
    ensures free.Valid() && fresh(free.elems) && |free.elems| == |msgs| == lim.maxMsgs
    ensures forall i | 0 <= i < |msgs| ::
              msgs[i].node.id == i && |msgs[i].buffer| == lim.maxLength && msgs[i].length == 0
    ensures forall n | n in free.elems :: n.id < |msgs| && msgs[n.id].node == n
  {
    msgs := [];
    while |msgs| < lim.maxMsgs
      invariant |msgs| <= lim.maxMsgs && free.Valid() && fresh(free.elems) && |free.elems| == |msgs|
      invariant forall i | 0 <= i < |msgs| ::
                  msgs[i].node.id == i && |msgs[i].buffer| == lim.maxLength && msgs[i].length == 0
      invariant forall n | n in free.elems :: n.id < |msgs| && msgs[n.id].node == n
    {
      var m := new Msg(|msgs|, lim.maxLength);
      ghost var before := free.elems;
      free.InsertHead(m.node);
      assert free.elems == [m.node] + before;
      msgs := msgs + [m];
    }
  }

  /** A free node goes to the head of a list; a second list stays as it is. */
  method InsertApart(list: DynList, other: DynList, e: Node)
    requires list != other && list.Valid() && other.Valid() && e.Free()
    modifies list, e, list.elems
    ensures list.Valid() && list.elems == [e] + old(list.elems)
    ensures other.Valid() && other.elems == old(other.elems)
  {
    assert forall n | n in other.elems :: n != e && n !in list.elems;
    list.InsertHead(e);
  }

  class Channel {
    const lim: Limits
    const pool: seq<Msg>
    const freeMsgs: DynList
    const recvMsgs: DynList
    var usedMsgs: int
    /** The texts of all messages of the pool. */
    ghost var texts: seq<Bytes>

    /** The messages of the pool have their own nodes and room for a longest message each. */
    ghost predicate PoolValid()
      reads this`texts, pool
    {
      && |pool| == |texts| == lim.maxMsgs
      && forall i | 0 <= i < |pool| ::
           && pool[i].node.id == i && |pool[i].buffer| == lim.maxLength && pool[i].length <= lim.maxLength
           && pool[i].Text() == texts[i]
    }

    /** Each element is the node of a message of the pool. */
    ghost predicate FromPool(elems: seq<Node>) {
      forall n | n in elems :: n.id < |pool| && pool[n.id].node == n
    }

    /** Two separate lists of messages of the pool. */
    ghost predicate ListsValid()
      reads freeMsgs, freeMsgs.elems, recvMsgs, recvMsgs.elems
    {
      && freeMsgs != recvMsgs && freeMsgs.Valid() && recvMsgs.Valid()
      && FromPool(freeMsgs.elems) && FromPool(recvMsgs.elems)
    }

    ghost predicate Valid()
      reads this, freeMsgs, freeMsgs.elems, recvMsgs, recvMsgs.elems, pool
    {
      && PoolValid() && ListsValid()
      && usedMsgs == |recvMsgs.elems|
      && |freeMsgs.elems| == lim.maxMsgs - usedMsgs
    }

    /** The waiting messages, oldest first. */
    ghost function Queue(): (q: seq<Bytes>)
      requires |texts| == |pool| && FromPool(recvMsgs.elems)
      reads this`texts, recvMsgs`elems
      ensures |q| == |recvMsgs.elems|
    {
      OldestFirst(texts, recvMsgs.elems)
    }

    /** The queuing part of `setup_comm`. */
    constructor (lim: Limits)
      ensures Valid() && this.lim == lim && Queue() == []
    {
      var free := new DynList();
      var recv := new DynList();
      var msgs := AllocatePool(lim, free);
      this.lim, pool, freeMsgs, recvMsgs, usedMsgs := lim, msgs, free, recv, 0;
      texts := seq(|msgs|, _ => []);
    }

    /** Both lists are in order, and `e` is the one message of the pool in neither. */
    ghost predicate Between(e: Node)
      reads freeMsgs, freeMsgs.elems, recvMsgs, recvMsgs.elems, e
    {
      && ListsValid()
      && e.Free() && e.id < |pool| && pool[e.id].node == e
      && |freeMsgs.elems| + |recvMsgs.elems| == lim.maxMsgs - 1
    }

    /** A message leaves the free list; the "internal error" of the code cannot happen. */
    method TakeFree() returns (e: Node)
      requires Valid() && usedMsgs < lim.maxMsgs
      modifies freeMsgs, freeMsgs.elems
      ensures Between(e) && PoolValid()
      ensures recvMsgs.elems == old(recvMsgs.elems) && e in old(freeMsgs.elems)
    {
      var t := freeMsgs.RemoveTail();
      assert t != null;
      e := t;
    }

    /** The oldest message leaves the receive list; again there always is one. */
    method TakeReceived() returns (e: Node)
      requires Valid() && usedMsgs > 0
      modifies recvMsgs, recvMsgs.elems
      ensures Between(e) && PoolValid()
      ensures old(recvMsgs.elems) == recvMsgs.elems + [e] && e in old(recvMsgs.elems)
    {
      var t := recvMsgs.RemoveTail();
      assert t != null;
      e := t;
    }

    method PutReceived(e: Node)
      requires PoolValid() && Between(e) && usedMsgs == |recvMsgs.elems|
      modifies this`usedMsgs, e, recvMsgs, recvMsgs.elems
      ensures Valid()
      ensures recvMsgs.elems == [e] + old(recvMsgs.elems)
    {
      InsertApart(recvMsgs, freeMsgs, e);
      usedMsgs := usedMsgs + 1;
    }

    method PutFree(e: Node)
      requires PoolValid() && Between(e) && usedMsgs == |recvMsgs.elems| + 1
      modifies this`usedMsgs, e, freeMsgs, freeMsgs.elems
      ensures Valid()
      ensures recvMsgs.elems == old(recvMsgs.elems)
    {
      InsertApart(freeMsgs, recvMsgs, e);
      usedMsgs := usedMsgs - 1;
    }

    /** `send_queuing_port` on an open source port of this channel. */
    method Send(msg: Bytes) returns (status: Status)
      requires Valid()
      modifies this, pool, freeMsgs, freeMsgs.elems, recvMsgs, recvMsgs.elems
      ensures Valid()
      ensures status == InvalidConfig <==> !(1 <= |msg| <= lim.maxLength)
      ensures status == OpNotAllowed <==> 1 <= |msg| <= lim.maxLength && |old(Queue())| == lim.maxMsgs
      ensures Queue() == if status == Ok then old(Queue()) + [msg] else old(Queue())
      ensures status == SendStatus(lim, old(Queue()), msg)
      ensures Queue() == After(lim, old(Queue()), Operation.Send(msg))
    {
      if |msg| == 0 || |msg| > lim.maxLength {
        return InvalidConfig;
      }
      if usedMsgs >= lim.maxMsgs {
        return OpNotAllowed;
      }
      ghost var t, elems := texts, recvMsgs.elems;
      ghost var e := Enqueue(msg);
      NewestIsLast(t, elems, e, msg);
      return Ok;
    }

    /** The part of `send_queuing_port` that moves a message, `e`, from the free to the receive list. */
    method Enqueue(msg: Bytes) returns (ghost e: Node)
      requires Valid() && |msg| <= lim.maxLength && usedMsgs < lim.maxMsgs
      modifies this, pool, freeMsgs, freeMsgs.elems, recvMsgs, recvMsgs.elems
      ensures Valid()
      ensures e.id < |pool| && forall n | n in old(recvMsgs.elems) :: n.id != e.id
      ensures recvMsgs.elems == [e] + old(recvMsgs.elems) && texts == old(texts)[e.id := msg]
    {
      var m := TakeFree();
      NotWaiting(m);
      Fill(pool[m.id], msg);
      PutReceived(m);
      e := m;
    }

    /** `receive_queuing_port` on an open destination port; `out` is what lands in the caller's buffer. */
    method Receive(size: nat) returns (status: Status, out: Bytes)
      requires Valid()
      modifies this, freeMsgs, freeMsgs.elems, recvMsgs, recvMsgs.elems
      ensures Valid()
      ensures status == InvalidConfig <==> !(1 <= size <= lim.maxLength)
      ensures status == OpNotAllowed <==> 1 <= size <= lim.maxLength && old(Queue()) == []
      ensures if status == Ok then old(Queue()) == [old(Queue())[0]] + Queue() else Queue() == old(Queue())
      ensures status == ReceiveStatus(lim, old(Queue()), size)
      ensures Queue() == After(lim, old(Queue()), Operation.Receive(size))
      ensures status == Ok ==> out == old(Queue())[0][..Min(size, |old(Queue())[0]|)]
      ensures status != Ok ==> out == []
    {
      if size == 0 || size > lim.maxLength {
        return InvalidConfig, [];
      }
      if usedMsgs <= 0 {
        return OpNotAllowed, [];
      }
      ghost var elems := recvMsgs.elems;
      ghost var e;
      out, e := Dequeue(size);
      OldestIsFirst(texts, recvMsgs.elems, e);
      return Ok, out;
    }

    /** The part of `receive_queuing_port` that moves a message, `e`, back to the free list. */
    method Dequeue(size: nat) returns (out: Bytes, ghost e: Node)
      requires Valid() && usedMsgs > 0
      modifies this`usedMsgs, freeMsgs, freeMsgs.elems, recvMsgs, recvMsgs.elems
      ensures Valid() && e.id < |pool|
      ensures old(recvMsgs.elems) == recvMsgs.elems + [e]
      ensures out == texts[e.id][..Min(size, |texts[e.id]|)]
    {
      var m := TakeReceived();
      out := CopyOut(pool[m.id], size);
      PutFree(m);
      e := m;
    }

    method CopyOut(m: Msg, size: nat) returns (out: Bytes)
      requires PoolValid() && m.node.id < |pool| && pool[m.node.id] == m
      ensures out == texts[m.node.id][..Min(size, |texts[m.node.id]|)]
    {
      assert m.Text() == texts[m.node.id];
      out := m.buffer[..Min(size, m.length)];
    }

    /** The nodes of all messages; the two lists never hold any other. */
    ghost function Nodes(): set<Node> {
      set m | m in pool :: m.node
    }

    lemma OnlyNodes()
      requires Valid()
      ensures forall n | n in freeMsgs.elems || n in recvMsgs.elems :: n in Nodes()
    {
    }

    method Step(op: Operation) returns (sent: seq<Bytes>, received: seq<(nat, Bytes)>)
      requires Valid()
      modifies this, pool, freeMsgs, recvMsgs, Nodes()
      ensures Valid() && Queue() == After(lim, old(Queue()), op)
      ensures sent == SentBy(lim, old(Queue()), op) && received == ReceivedBy(lim, old(Queue()), op)
    {
      OnlyNodes();
      sent, received := [], [];
      match op
      case Send(msg) =>
        var status := Send(msg);
        if status == Ok {
          sent := [msg];
        }
      case Receive(size) =>
        var status, out := Receive(size);
        if status == Ok {
          received := [(size, out)];
        }
    }

    /** Any run of sends and receives on the channel sends, receives and leaves what the same run on
        a queue of messages does, in which `FifoLossless` says that nothing is lost. */
    method Perform(ops: seq<Operation>) returns (sent: seq<Bytes>, received: seq<(nat, Bytes)>)
      requires Valid()
      modifies this, pool, freeMsgs, recvMsgs, Nodes()
      ensures Valid() && Queue() == Final(lim, old(Queue()), ops)
      ensures sent == Sent(lim, old(Queue()), ops) && received == Received(lim, old(Queue()), ops)
      decreases |ops|
    {
      if ops == [] {
        return [], [];
      }
      var sentFirst, receivedFirst := Step(ops[0]);
      var sentMore, receivedMore := Perform(ops[1..]);
      sent, received := sentFirst + sentMore, receivedFirst + receivedMore;
    }

    method SendEach(msgs: seq<Bytes>)
      requires Valid() && Queue() == [] && |msgs| <= lim.maxMsgs
      requires forall i | 0 <= i < |msgs| :: 1 <= |msgs[i]| <= lim.maxLength
      modifies this, pool, freeMsgs, recvMsgs, Nodes()
      ensures Valid() && Queue() == msgs
    {
      var sends := Sends(msgs);
      AllSent(lim, [], msgs, sends);
      var sent, none := Perform(sends);
    }

    method ReceiveEach(n: nat) returns (received: seq<(nat, Bytes)>)
      requires Valid() && |Queue()| == n
      requires forall i | 0 <= i < n :: 1 <= |Queue()[i]| <= lim.maxLength
      modifies this, pool, freeMsgs, recvMsgs, Nodes()
      ensures Valid() && Queue() == [] && |received| == n
      ensures forall i | 0 <= i < n :: received[i] == (lim.maxLength, old(Queue())[i])
    {
      ghost var q := Queue();
      var receives := Receives(lim.maxLength, n);
      AllReceived(lim, q, receives);
      var none;
      none, received := Perform(receives);
    }

    /** A channel carries as many messages at once as it is configured for: sent in a row through an
        empty channel they all arrive, whole and in order. */
    method Carry(msgs: seq<Bytes>) returns (received: seq<(nat, Bytes)>)
      requires Valid() && Queue() == [] && |msgs| <= lim.maxMsgs
      requires forall i | 0 <= i < |msgs| :: 1 <= |msgs[i]| <= lim.maxLength
      modifies this, pool, freeMsgs, recvMsgs, Nodes()
      ensures Valid() && Queue() == [] && |received| == |msgs|
      ensures forall i | 0 <= i < |msgs| :: received[i] == (lim.maxLength, msgs[i])
    {
      SendEach(msgs);
      received := ReceiveEach(|msgs|);
    }

    lemma NotWaiting(e: Node)
      requires Between(e)
      ensures forall n | n in recvMsgs.elems :: n.id != e.id
    {
    }

    /** Copies the message into the buffer of a message of the pool. */
    method Fill(m: Msg, msg: Bytes)
      requires PoolValid() && m in pool && |msg| <= lim.maxLength
      modifies this`texts, m
      ensures PoolValid() && texts == old(texts)[m.node.id := msg]
    {
      m.buffer := msg + m.buffer[|msg|..];
      m.length := |msg|;
      texts := texts[m.node.id := msg];
      assert m.Text() == msg;
    }
  }

  /** The texts that the elements name, the last element's first: the receive list grows at its head. */
  ghost function OldestFirst(texts: seq<Bytes>, elems: seq<Node>): (r: seq<Bytes>)
    requires forall n | n in elems :: n.id < |texts|
    ensures |r| == |elems|
  {
    if elems == [] then [] else OldestFirst(texts, elems[1..]) + [texts[elems[0].id]]
  }

  lemma {:induction false} OldestFirstIgnores(texts: seq<Bytes>, elems: seq<Node>, k: nat, t: Bytes)
    requires k < |texts| && forall n | n in elems :: n.id < |texts| && n.id != k
    ensures OldestFirst(texts[k := t], elems) == OldestFirst(texts, elems)
  {
    if elems != [] {
      OldestFirstIgnores(texts, elems[1..], k, t);
    }
  }

  lemma {:induction false} OldestIsFirst(texts: seq<Bytes>, elems: seq<Node>, e: Node)
    requires forall n | n in elems + [e] :: n.id < |texts|
    ensures e.id < |texts|
    ensures OldestFirst(texts, elems + [e]) == [texts[e.id]] + OldestFirst(texts, elems)
  {
    assert e in elems + [e];
    if elems == [] {
      assert elems + [e] == [e];
    } else {
      assert (elems + [e])[1..] == elems[1..] + [e];
      forall n | n in elems[1..] + [e] ensures n in elems + [e] {
      }
      OldestIsFirst(texts, elems[1..], e);
    }
  }

  lemma NewestIsLast(texts: seq<Bytes>, elems: seq<Node>, e: Node, t: Bytes)
    requires e.id < |texts| && forall n | n in elems :: n.id < |texts| && n.id != e.id
    ensures OldestFirst(texts[e.id := t], [e] + elems) == OldestFirst(texts, elems) + [t]
  {
    assert ([e] + elems)[1..] == elems;
    OldestFirstIgnores(texts, elems, e.id, t);
  }
}
