/** consensus/pvbft/msg_queue.go: the three heap-ordered queues of consensus messages. */
module MsgQueues {
  import opened Types
  import Heap

  datatype View = View(sequence: nat, round: nat)

  datatype MsgType = RoundChange | Preprepare | Commit | Prepare

  /** A block's header, and all that its hash depends on. */
  datatype Header = Header(number: nat, digest: nat)

  /** The header is the one a proposal carries, or the one that the seal of a commit message covers: none if it is
      no seal of its sender. */
  datatype Message = Message(from: Address, typ: MsgType, view: View, proposal: Option<Header>)

  datatype IbftState = AcceptState | RoundChangeState | ValidateState | CommitState | SyncState

  /** cmpView */
  function CmpView(v: View, y: View): int {
    if v.sequence != y.sequence then (if v.sequence < y.sequence then -1 else 1)
    else if v.round != y.round then (if v.round < y.round then -1 else 1)
    else 0
  }

  function Priority(t: MsgType): nat {
    match t
    case RoundChange => 0
    case Preprepare => 1
    case Commit => 2
    case Prepare => 3
  }

  /** msgQueueImpl.Less */
  predicate Less(a: Message, b: Message) {
    if a.view.sequence != b.view.sequence then a.view.sequence < b.view.sequence
    else if a.view.round != b.view.round then a.view.round < b.view.round
    else Priority(a.typ) < Priority(b.typ)
  }

  lemma LessIsOrder()
    ensures Heap.Order(Less)
  {
    assert forall a, b :: Heap.NotAfter(Less, a, b) || Heap.NotAfter(Less, b, a);
    forall a, b, c | Heap.NotAfter(Less, a, b) && Heap.NotAfter(Less, b, c)
      ensures Heap.NotAfter(Less, a, c)
    {
      assert !Less(b, a) && !Less(c, b);
    }
  }

  /** msgToState */
  function StateOf(t: MsgType): IbftState {
    match t
    case RoundChange => RoundChangeState
    case Preprepare => AcceptState
    case Commit => ValidateState
    case Prepare => ValidateState
  }

  predicate Stale(m: Message, current: View) {
    CmpView(m.view, current) < 0
  }

  /** While rounds are being negotiated every round of the current sequence is of interest. */
  predicate Future(state: IbftState, m: Message, current: View) {
    if state == RoundChangeState then m.view.sequence > current.sequence else CmpView(m.view, current) > 0
  }

  predicate Deliverable(state: IbftState, m: Message, current: View) {
    !Stale(m, current) && !Future(state, m, current)
  }

  /** What delivery guarantees about the view: outside RoundChangeState it is exactly the current one. */
  lemma DeliverableView(state: IbftState, m: Message, current: View)
    ensures Deliverable(state, m, current) <==>
            if state == RoundChangeState
            then m.view.sequence == current.sequence && m.view.round >= current.round
            else m.view == current
  {
  }

  /** A heap of messages that are all meant for the given state. */
  ghost predicate QueueFor(q: seq<Message>, state: IbftState) {
    Heap.IsHeap(Less, q) && forall m :: m in q ==> SameQueue(StateOf(m.typ), state)
  }

  class MsgQueue {
    var roundChangeStateQueue: seq<Message>
    var acceptStateQueue: seq<Message>
    var validateStateQueue: seq<Message>

    ghost predicate Valid()
      reads this
    {
      && QueueFor(roundChangeStateQueue, RoundChangeState)
      && QueueFor(acceptStateQueue, AcceptState)
      && QueueFor(validateStateQueue, ValidateState)
    }

    /** getQueue */
    function Queue(state: IbftState): seq<Message>
      reads this
    {
      if state == RoundChangeState then roundChangeStateQueue
      else if state == AcceptState then acceptStateQueue
      else validateStateQueue
    }

    constructor ()
      ensures Valid()
      ensures forall state :: Queue(state) == []
    {
      roundChangeStateQueue, acceptStateQueue, validateStateQueue := [], [], [];
    }

    method SetQueue(state: IbftState, q: seq<Message>)
      requires Valid() && QueueFor(q, state)
      modifies this
      ensures Valid() && Queue(state) == q
      ensures forall s :: SameQueue(s, state) || Queue(s) == old(Queue(s))
    {
      if state == RoundChangeState {
        roundChangeStateQueue := q;
      } else if state == AcceptState {
        acceptStateQueue := q;
      } else {
        validateStateQueue := q;
      }
    }

    method PushMessage(m: Message)
      requires Valid()
      modifies this
      ensures Valid()
      ensures multiset(Queue(StateOf(m.typ))) == old(multiset(Queue(StateOf(m.typ)))) + multiset{m}
      ensures forall s :: SameQueue(s, StateOf(m.typ)) || Queue(s) == old(Queue(s))
    {
      LessIsOrder();
      var state := StateOf(m.typ);
      var q := Heap.Push(Queue(state), m, Less);
      SameMembers(q, Queue(state) + [m]);
      SetQueue(state, q);
    }

    method ReadMessage(state: IbftState, current: View) returns (r: Option<Message>)
      requires Valid()
      modifies this
      ensures Valid()
      ensures ReadResult(state, current, old(Queue(state)), r, Queue(state))
      ensures r.Some? ==> InTurn(state, current, old(Queue(state)), r.value)
      ensures forall s :: SameQueue(s, state) || Queue(s) == old(Queue(s))
    {
      var q;
      r, q := ReadFrom(Queue(state), state, current);
      forall m | m in q ensures m in Queue(state) {
        Counted(q, m);
        Counted(Queue(state), m);
      }
      SetQueue(state, q);
    }
  }

  lemma SameMembers(p: seq<Message>, q: seq<Message>)
    requires multiset(p) == multiset(q)
    ensures forall m :: m in p <==> m in q
  {
    forall m ensures m in p <==> m in q {
      assert m in p <==> m in multiset(p);
      assert m in q <==> m in multiset(q);
    }
  }

  predicate SameQueue(a: IbftState, b: IbftState) {
    (a == RoundChangeState <==> b == RoundChangeState) && (a == AcceptState <==> b == AcceptState)
  }

  /** readMessage hands out a least deliverable message if there is one; every message older than the
      current view is gone afterwards, and nothing else is. */
  ghost predicate ReadResult(state: IbftState, current: View, before: seq<Message>, r: Option<Message>,
                             after: seq<Message>)
  {
    && (r.None? ==> forall m :: m in before ==> !Deliverable(state, m, current))
    && (r.Some? ==>
          && r.value in before && Deliverable(state, r.value, current)
          && forall m :: m in before && Deliverable(state, m, current) ==> !Less(m, r.value))
    && forall m: Message ::
         Count(after, m) == (if Stale(m, current) then 0 else Count(before, m)) - (if r == Some(m) then 1 else 0)
  }

  /** The order in which messages are handed out: in a round change the lowest round first, and otherwise no prepare
      message as long as a commit message of the current view is queued. */
  ghost predicate InTurn(state: IbftState, current: View, before: seq<Message>, m: Message) {
    if state == RoundChangeState
    then forall x :: x in before && x.view.sequence == current.sequence && x.view.round >= current.round ==>
           m.view.round <= x.view.round
    else m.typ == Prepare ==> forall x :: x in before ==> x.typ != Commit || x.view != current
  }

  lemma ReadInTurn(state: IbftState, current: View, before: seq<Message>, m: Message, after: seq<Message>)
    requires ReadResult(state, current, before, Some(m), after)
    ensures InTurn(state, current, before, m)
  {
    DeliverableView(state, m, current);
    forall x | x in before && Deliverable(state, x, current) ensures !Less(x, m) {
    }
    forall x | x in before && x.view.sequence == current.sequence && x.view.round >= current.round
      ensures state == RoundChangeState || x.view == current ==> Deliverable(state, x, current)
    {
      DeliverableView(state, x, current);
    }
  }

  /** If nothing was handed out, nothing that could be is left. */
  lemma NothingDue(state: IbftState, current: View, before: seq<Message>, after: seq<Message>)
    requires ReadResult(state, current, before, None, after)
    ensures forall m :: m in after ==> !Deliverable(state, m, current)
  {
    forall m | m in after ensures !Deliverable(state, m, current) {
      Counted(after, m);
      Counted(before, m);
    }
  }

  /** What could be handed out and was not is still queued. */
  lemma DueIsKept(state: IbftState, current: View, before: seq<Message>, r: Option<Message>, after: seq<Message>,
                  m: Message)
    requires ReadResult(state, current, before, r, after) && m in before && Deliverable(state, m, current)
    ensures m in after || r == Some(m)
  {
    Counted(before, m);
    Counted(after, m);
  }

  ghost function Count(q: seq<Message>, m: Message): nat {
    multiset(q)[m]
  }

  /** The loop of readMessage. */
  method ReadFrom(queue: seq<Message>, state: IbftState, current: View) returns (r: Option<Message>, q: seq<Message>)
    requires Heap.IsHeap(Less, queue)
    ensures Heap.IsHeap(Less, q)
    ensures ReadResult(state, current, queue, r, q)
    ensures r.Some? ==> InTurn(state, current, queue, r.value)
  {
    LessIsOrder();
    q := queue;
    r := None;
    while |q| > 0
      invariant Heap.IsHeap(Less, q) && r.None?
      invariant forall m: Message :: Stale(m, current) || Count(q, m) == Count(queue, m)
      decreases |q|
    {
      forall i | 0 <= i < |q| ensures !Less(q[i], q[0]) {
        Heap.RootIsLeast(Less, q, i);
      }
      if Future(state, q[0], current) {
        CountsAfter(queue, state, current, q, None);
        return;
      }
      ghost var q' := q;
      var m;
      m, q := Heap.Pop(q, Less);
      CountsPopped(q', m, q);
      if !Stale(m, current) {
        r := Some(m);
        CountsAfter(queue, state, current, q, r);
        ReadInTurn(state, current, queue, m, q);
        return;
      }
    }
    CountsAfter(queue, state, current, q, None);
  }

  lemma Counted(q: seq<Message>, m: Message)
    ensures m in q <==> Count(q, m) > 0
  {
    assert m in q <==> m in multiset(q);
  }

  lemma CountsPopped(before: seq<Message>, m: Message, after: seq<Message>)
    requires multiset(before) == multiset(after) + multiset{m}
    ensures forall x: Message :: Count(before, x) == Count(after, x) + (if x == m then 1 else 0)
    ensures m in before && forall x :: x in after ==> x in before
  {
    forall x: Message ensures Count(before, x) == Count(after, x) + (if x == m then 1 else 0) {
    }
    Counted(before, m);
    forall x | x in after ensures x in before {
      Counted(after, x);
      Counted(before, x);
    }
  }

  lemma CountsAfter(queue: seq<Message>, state: IbftState, current: View, q: seq<Message>, r: Option<Message>)
    requires forall m: Message :: Stale(m, current) || Count(queue, m) == Count(q, m) + (if r == Some(m) then 1 else 0)
    requires forall m :: m in q ==> !Stale(m, current)
    requires r.None? ==> forall m :: m in q ==> Future(state, m, current)
    requires r.Some? ==> Deliverable(state, r.value, current) && forall m :: m in q ==> !Less(m, r.value)
    ensures ReadResult(state, current, queue, r, q)
  {
    forall m: Message ensures (m in q <==> Count(q, m) > 0) && (m in queue <==> Count(queue, m) > 0) {
      Counted(q, m);
      Counted(queue, m);
    }
  }
}
