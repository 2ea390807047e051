/** The consensus node as it is written: currentState (consensus/pvbft/state.go) and the state loops of
    Ibft (ibft.go), each proved to do what the transition function of module Pvbft does. */
module Ibft {
  import opened Types
  import opened MsgQueues
  import opened Quorum
  import opened Pvbft

  class CurrentState {
    var vset: seq<Address>
    var state: IbftState
    var block: Option<Header>
    var proposer: Address
    var view: View
    var prepared: Tally
    var committed: Tally
    var roundMessages: map<nat, Tally>
    var locked: bool
    var err: bool

    ghost function Msgs(): RoundMsgs
      reads this
    {
      RoundMsgs(prepared, committed, roundMessages)
    }

    function NumValid(): nat
      reads this
    {
      2 * MaxFaultyNodes(|vset|)
    }

    constructor (vset: seq<Address>)
      ensures this.vset == vset && state == AcceptState && block == None && !locked && !err && Msgs() == NO_MSGS
    {
      this.vset := vset;
      state, block, proposer, view, locked, err := AcceptState, None, 0, View(0, 0), false, false;
      prepared, committed, roundMessages := map[], map[], map[];
    }

    /** getErr consumes the error. */
    method GetErr() returns (e: bool)
      modifies this`err
      ensures e == old(err) && !err
    {
      e := err;
      err := false;
    }

    /** maxRound, in whatever order the map is walked. */
    method MaxRoundMessages() returns (maxRound: nat, found: bool)
      ensures MaxRound(roundMessages, |vset|) == if found then Some(maxRound) else None
    {
      var num := MaxFaultyNodes(|vset|) + 1;
      maxRound, found := 0, false;
      var rest := roundMessages.Keys;
      while rest != {}
        invariant rest <= roundMessages.Keys
        invariant found ==> WeakRound(roundMessages, |vset|, maxRound)
        invariant !found ==> maxRound == 0
        invariant forall k :: k in roundMessages.Keys - rest && WeakRound(roundMessages, |vset|, k) ==> k <= maxRound
        decreases rest
      {
        var k :| k in rest;
        rest := rest - {k};
        if |roundMessages[k]| >= num && maxRound < k {
          maxRound := k;
          found := true;
        }
      }
      assert forall k: nat :: WeakRound(roundMessages, |vset|, k) ==> k in roundMessages.Keys - rest;
    }

    method ResetRoundMsgs()
      modifies this`prepared, this`committed, this`roundMessages
      ensures Msgs() == NO_MSGS
    {
      prepared, committed, roundMessages := map[], map[], map[];
    }

    method DoLock()
      modifies this`locked
      ensures locked
    {
      locked := true;
    }

    method Unlock()
      modifies this`locked, this`block
      ensures !locked && block == None
    {
      block := None;
      locked := false;
    }

    method CleanRound(round: nat)
      modifies this`roundMessages
      ensures roundMessages == old(roundMessages) - {round}
    {
      roundMessages := roundMessages - {round};
    }

    method DoAddMessage(m: Message)
      modifies this`prepared, this`committed, this`roundMessages
      ensures Msgs() == Tallied(old(Msgs()), vset, m)
    {
      var index := Index(vset, m.from);
      if index == -1 {
        return;
      }
      match m.typ
      case Commit => committed := committed[m.from := m];
      case Prepare => prepared := prepared[m.from := m];
      case RoundChange =>
        if m.view.round !in roundMessages {
          roundMessages := roundMessages[m.view.round := map[]];
        }
        var round: Tally := roundMessages[m.view.round][m.from := m];
        roundMessages := roundMessages[m.view.round := round];
      case Preprepare =>
    }

    method AddRoundMessage(m: Message) returns (n: nat)
      modifies this`prepared, this`committed, this`roundMessages
      ensures m.typ != RoundChange ==> n == 0 && Msgs() == old(Msgs())
      ensures m.typ == RoundChange ==>
        Msgs() == Tallied(old(Msgs()), vset, m) && n == RoundCount(roundMessages, m.view.round)
    {
      if m.typ != RoundChange {
        return 0;
      }
      DoAddMessage(m);
      n := if m.view.round in roundMessages then |roundMessages[m.view.round]| else 0;
    }
  }

  /** What ends a wait in getNextMessage: a message arrives, or the timer fires; when there is nothing
      more to come the node is being closed. */
  datatype Wake = Arrives(m: Message) | TimesOut

  lemma TalliedKeeps(t: RoundMsgs, vset: seq<Address>, m: Message)
    ensures t.prepared.Keys <= Tallied(t, vset, m).prepared.Keys
    ensures t.committed.Keys <= Tallied(t, vset, m).committed.Keys
    ensures m.typ == Prepare && m.from in vset ==> m.from in Tallied(t, vset, m).prepared
    ensures m.typ == Commit && m.from in vset ==> m.from in Tallied(t, vset, m).committed
  {
  }

  /** What the waits of a state loop become: one message or timeout for each, in order, as long as the state
      lasts and the node is not closed. */
  ghost predicate Waited(evs: seq<Event>, from: nat, turns: nat, stays: bool, closed: bool) {
    && from <= |evs| <= from + turns
    && (forall i :: from <= i < |evs| ==> IsWait(evs[i]))
    && (stays && !closed ==> |evs| == from + turns)
  }

  predicate IsWait(ev: Event) {
    ev.Read? || ev.Timeout?
  }

  /** The events so far are allowed and lead from s0 to s. */
  ghost predicate Leads(policy: Policy, s0: Node, evs: seq<Event>, s: Node) {
    AllAllowed(policy, s0, evs) && Run(s0, evs) == s
  }

  /** A state loop after some of its turns. */
  ghost predicate Looping(policy: Policy, s0: Node, evs: seq<Event>, s: Node, from: nat, turns: nat) {
    Leads(policy, s0, evs, s) && Inv(s) && Waited(evs, from, turns, false, false)
  }

  lemma LeadsOn(policy: Policy, s0: Node, evs: seq<Event>, s: Node, ev: Event, from: nat, turns: nat)
    requires Looping(policy, s0, evs, s, from, turns) && |evs| < from + turns && Allowed(policy, s, ev) && IsWait(ev)
    ensures Looping(policy, s0, evs + [ev], Next(s, ev), from, turns)
  {
    Extend(policy, s0, evs, ev);
    InvStep(s, ev);
  }

  /** What a turn of runSyncState meets: no peer, or a bulk sync up to a head that may fail and then blocks
      watched up to another one; and whether the node is sealing and there is a snapshot for that head. */
  datatype SyncTurn = NoPeer(found: bool) | Peer(bulk: Header, ok: bool, found: bool, watched: Header, nowFound: bool)

  /** A validator leaves SyncState in this turn. */
  predicate Starts(t: SyncTurn) {
    match t
    case NoPeer(found) => found
    case Peer(_, ok, found, _, nowFound) => ok && (found || nowFound)
  }

  /** What the rest of the program answers during one turn of runCycle, as far as that turn asks. */
  datatype Answers = Answers(sync: seq<SyncTurn>, found: bool, seed: Header -> nat, built: Header -> Option<nat>,
                             turns: seq<seq<Wake>>, write: (Header, Tally) -> InsertOutcome, peerAhead: seq<bool>)

  /** The answers keep to the policy. */
  ghost predicate Fits(policy: Policy, verdict: (Header, Header) -> Verdict, a: Answers) {
    && |a.peerAhead| == |a.turns| + 1
    && (forall h :: EnterAllowed(policy, h, a.seed(h), a.built(h)))
    && WritesFit(policy, a.write)
    && HeightsChecked(policy, verdict)
  }

  ghost predicate WritesFit(policy: Policy, write: (Header, Tally) -> InsertOutcome) {
    forall h, t: Tally :: && (write(h, t) == WriteFailed ==> policy.writeMayFail)
                          && (policy.valid.Some? ==> (write(h, t) == WriteFailed <==> !Writable(policy, h, t)))
  }

  /** What becomes of the block that a node in CommitState inserts. */
  function OutcomeOf(write: (Header, Tally) -> InsertOutcome, s: Node): InsertOutcome
    requires s.lock.block.Some?
  {
    write(s.lock.block.value, s.msgs.committed)
  }

  ghost predicate HeightsChecked(policy: Policy, verdict: (Header, Header) -> Verdict) {
    policy.heightUnchecked || forall parent, h :: verdict(parent, h) == Verified ==> h.number == parent.number + 1
  }

  /** The last event is the insertion, with what came of the write. */
  ghost predicate WroteLast(s0: Node, evs: seq<Event>, write: (Header, Tally) -> InsertOutcome)
    requires |evs| > 0
  {
    var s := Run(s0, evs[..|evs| - 1]);
    s.lock.block.Some? && evs[|evs| - 1] == Insert(OutcomeOf(write, s))
  }

  class Ibft {
    const me: Address
    const st: CurrentState
    const queue: MsgQueue
    var head: Header
    var seals: seq<Header>
    var sent: set<Message>

    ghost predicate Valid()
      reads this, queue
    {
      queue.Valid()
    }

    /** The node this object stands for, given where its control is. */
    ghost function Abs(entered: bool, hasCommitted: bool): Node
      reads this, st
    {
      Node(st.vset, me, Phase(st.state, entered, hasCommitted), Lock(st.block, st.locked), st.proposer, st.view,
           st.Msgs(), st.err, head, seals, sent)
    }

    /** A node that validates has a vote of its own counted or queued, and its commit message if it has sealed. */
    ghost predicate VotesDue(hasCommitted: bool)
      reads this, st, queue
    {
      st.state == ValidateState ==>
        && (me in st.prepared || OwnPrepare() in queue.validateStateQueue || CommitDue())
        && (hasCommitted ==> CommitDue())
    }

    ghost predicate CommitDue()
      reads this, st, queue
    {
      me in st.committed || OwnCommit() in queue.validateStateQueue
    }

    ghost function OwnPrepare(): Message
      reads this, st
    {
      Message(me, Prepare, st.view, None)
    }

    ghost function OwnCommit(): Message
      reads this, st
    {
      Message(me, Commit, st.view, st.block)
    }

    constructor (me: Address, vset: seq<Address>, head: Header)
      ensures Valid() && VotesDue(false) && fresh(st) && fresh(queue)
      ensures Abs(false, false) == InitialNode(vset, me, head)
    {
      this.me := me;
      this.head := head;
      seals, sent := [], {};
      var s := new CurrentState(vset);
      s.state, s.view, s.proposer := SyncState, View(0, 0), 0;
      st := s;
      queue := new MsgQueue();
    }

    /** gossip: our own copy goes to our own queue, and a commit message carries a seal of state.block. */
    method Gossip(typ: MsgType)
      requires Valid() && (typ == Commit ==> st.block.Some?)
      modifies queue, this`seals, this`sent
      ensures Valid()
      ensures seals == if typ == Commit then old(seals) + [st.block.value] else old(seals)
      ensures sent == old(sent) + {Own(typ)}
      ensures multiset(queue.Queue(StateOf(typ))) == multiset(old(queue.Queue(StateOf(typ))))
        + if typ == Preprepare then multiset{} else multiset{Own(typ)}
      ensures forall s :: SameQueue(s, StateOf(typ)) || queue.Queue(s) == old(queue.Queue(s))
      ensures forall m :: m in old(queue.validateStateQueue) ==> m in queue.validateStateQueue
      ensures typ == Prepare || typ == Commit ==> Own(typ) in queue.validateStateQueue
    {
      var own := Own(typ);
      sent := sent + {own};
      if typ == Commit {
        seals := seals + [st.block.value];
      }
      if typ != Preprepare {
        PushOwn(own);
      }
    }

    method PushOwn(m: Message)
      requires Valid()
      modifies queue
      ensures Valid()
      ensures multiset(queue.Queue(StateOf(m.typ))) == multiset(old(queue.Queue(StateOf(m.typ)))) + multiset{m}
      ensures forall s :: SameQueue(s, StateOf(m.typ)) || queue.Queue(s) == old(queue.Queue(s))
      ensures forall x :: x in old(queue.validateStateQueue) ==> x in queue.validateStateQueue
      ensures StateOf(m.typ) == ValidateState ==> m in queue.validateStateQueue
    {
      ghost var before := queue.Queue(StateOf(m.typ));
      queue.PushMessage(m);
      SameMembers(queue.Queue(StateOf(m.typ)), before + [m]);
      assert queue.Queue(ValidateState) == queue.validateStateQueue;
    }

    /** The message of that type that the node would send now. */
    function Own(typ: MsgType): Message
      reads this, st
    {
      Message(me, typ, st.view, if typ == Preprepare || typ == Commit then st.block else None)
    }

    /** getNextMessage */
    method GetNextMessage(wakes: seq<Wake>) returns (ok: bool, msg: Option<Message>, rest: seq<Wake>)
      requires Valid()
      modifies queue
      ensures Valid() && |rest| <= |wakes|
      ensures ok && msg.Some? ==>
        SameQueue(StateOf(msg.value.typ), st.state) && Deliverable(st.state, msg.value, st.view)
      ensures ok && msg.None? ==> |rest| < |wakes|
      ensures !ok ==> msg.None?
      ensures msg.None? ==> forall m :: m in queue.Queue(st.state) ==> !Deliverable(st.state, m, st.view)
      ensures forall m :: m in old(queue.Queue(st.state)) && Deliverable(st.state, m, st.view) ==>
                m in queue.Queue(st.state) || msg == Some(m)
    {
      rest := wakes;
      ghost var start := queue.Queue(st.state);
      while true
        invariant Valid() && |rest| <= |wakes|
        invariant forall m :: m in start && Deliverable(st.state, m, st.view) ==> m in queue.Queue(st.state)
        decreases |rest|
      {
        ghost var before := queue.Queue(st.state);
        msg := queue.ReadMessage(st.state, st.view);
        forall m | m in before && Deliverable(st.state, m, st.view)
          ensures m in queue.Queue(st.state) || msg == Some(m)
        {
          DueIsKept(st.state, st.view, before, msg, queue.Queue(st.state), m);
        }
        if msg.Some? {
          return true, msg, rest;
        }
        NothingDue(st.state, st.view, before, queue.Queue(st.state));
        if |rest| == 0 {
          return false, None, rest;
        }
        var wake := rest[0];
        rest := rest[1..];
        match wake
        case TimesOut => return true, None, rest;
        case Arrives(m) => Receive(m);
      }
    }

    /** pushMessage of what the network delivers. */
    method Receive(m: Message)
      requires Valid()
      modifies queue
      ensures Valid()
      ensures forall s, x :: x in old(queue.Queue(s)) ==> x in queue.Queue(s)
    {
      ghost var before := queue.Queue(StateOf(m.typ));
      queue.PushMessage(m);
      SameMembers(queue.Queue(StateOf(m.typ)), before + [m]);
      forall s, x | x in old(queue.Queue(s)) ensures x in queue.Queue(s) {
        if SameQueue(s, StateOf(m.typ)) {
          assert queue.Queue(s) == queue.Queue(StateOf(m.typ));
        }
      }
    }

    /** Blocks written by the syncer; the chain's head does not go down. */
    method Synced(newHead: Header)
      modifies this`head
      ensures Abs(false, false) == Next(old(Abs(false, false)), HeadMoves(newHead))
    {
      if newHead.number > head.number {
        head := newHead;
      }
    }

    /** isValidSnapshot, and the move to AcceptState if the node is a validator. */
    method TryStart(found: bool)
      requires st.state == SyncState
      modifies st`view, st`state
      ensures Abs(false, false) == Next(old(Abs(false, false)), Sync(found))
      ensures st.state == if found && me in st.vset then AcceptState else SyncState
      ensures found && me in st.vset ==> st.view == View(head.number + 1, 0)
    {
      if found {
        var index := Index(st.vset, me);
        if index != -1 {
          st.view := View(head.number + 1, 0);
          st.state := AcceptState;
        }
      }
    }

    /** One turn of the loop of runSyncState with a peer: a bulk sync, then watching the peer. */
    method SyncWithPeer(policy: Policy, turn: SyncTurn, ghost s0: Node, ghost before: seq<Event>)
      returns (ghost evs: seq<Event>)
      requires turn.Peer? && st.state == SyncState
      requires AllAllowed(policy, s0, before) && Abs(false, false) == Run(s0, before)
      modifies this`head, st`view, st`state
      ensures AllAllowed(policy, s0, evs) && Abs(false, false) == Run(s0, evs) && |evs| > |before|
      ensures st.state == AcceptState <==> Starts(turn) && me in st.vset
      ensures st.state == SyncState || (st.state == AcceptState && st.view == View(head.number + 1, 0))
    {
      evs := SyncedStep(policy, turn.bulk, s0, before);
      if !turn.ok {
        return;
      }
      evs := StartStep(policy, turn.found, s0, evs);
      if st.state == AcceptState {
        return;
      }
      evs := SyncedStep(policy, turn.watched, s0, evs);
      evs := StartStep(policy, turn.nowFound, s0, evs);
    }

    method SyncedStep(ghost policy: Policy, newHead: Header, ghost s0: Node, ghost before: seq<Event>)
        returns (ghost evs: seq<Event>)
      requires AllAllowed(policy, s0, before) && Abs(false, false) == Run(s0, before)
      modifies this`head
      ensures AllAllowed(policy, s0, evs) && Abs(false, false) == Run(s0, evs) && evs == before + [HeadMoves(newHead)]
    {
      Extend(policy, s0, before, HeadMoves(newHead));
      Synced(newHead);
      evs := before + [HeadMoves(newHead)];
    }

    method StartStep(ghost policy: Policy, found: bool, ghost s0: Node, ghost before: seq<Event>)
        returns (ghost evs: seq<Event>)
      requires st.state == SyncState && AllAllowed(policy, s0, before) && Abs(false, false) == Run(s0, before)
      modifies st`view, st`state
      ensures AllAllowed(policy, s0, evs) && Abs(false, false) == Run(s0, evs) && evs == before + [Sync(found)]
      ensures st.state == if found && me in st.vset then AcceptState else SyncState
      ensures found && me in st.vset ==> st.view == View(head.number + 1, 0)
    {
      Extend(policy, s0, before, Sync(found));
      TryStart(found);
      evs := before + [Sync(found)];
    }

    /** runSyncState */
    method RunSyncState(policy: Policy, turns: seq<SyncTurn>) returns (ghost evs: seq<Event>)
      requires st.state == SyncState
      modifies this`head, st`view, st`state
      ensures Abs(false, false) == Run(old(Abs(false, false)), evs) && AllAllowed(policy, old(Abs(false, false)), evs)
      ensures st.state == SyncState || (st.state == AcceptState && st.view == View(head.number + 1, 0))
      ensures st.state == AcceptState <==> me in st.vset && exists i :: 0 <= i < |turns| && Starts(turns[i])
    {
      ghost var s0 := Abs(false, false);
      evs := [];
      var i := 0;
      while st.state == SyncState && i < |turns|
        invariant AllAllowed(policy, s0, evs) && Abs(false, false) == Run(s0, evs) && 0 <= i <= |turns|
        invariant st.state == SyncState || (st.state == AcceptState && st.view == View(head.number + 1, 0))
        invariant st.state == SyncState ==> me !in st.vset || forall j :: 0 <= j < i ==> !Starts(turns[j])
        invariant st.state == AcceptState ==> me in st.vset && i > 0 && Starts(turns[i - 1])
      {
        match turns[i] {
          case NoPeer(found) =>
            evs := StartStep(policy, found, s0, evs);
          case Peer(_, _, _, _, _) =>
            evs := SyncWithPeer(policy, turns[i], s0, evs);
        }
        i := i + 1;
      }
    }

    method HandleStateError()
      modifies st`err, st`state
      ensures st.err && st.state == RoundChangeState
    {
      st.err := true;
      st.state := RoundChangeState;
    }

    /** runAcceptState, before its message loop. */
    method BeginAcceptState(found: bool, seed: nat, built: Option<nat>)
      requires Valid() && st.state == AcceptState
      modifies st`state, st`prepared, st`committed, st`roundMessages, st`proposer, st`block
      modifies this`seals, this`sent, queue
      ensures Valid() && VotesDue(false) && st.state != CommitState
      ensures Abs(st.state == AcceptState, false) == BeginAccept(old(Abs(false, false)), found, seed, built)
    {
      var index := Index(st.vset, me);
      if head.number + 1 != st.view.sequence || !found || index == -1 {
        st.state := SyncState;
        return;
      }
      ghost var s := Drawn(Abs(false, false), seed);
      EnterRound(seed);
      OpenRound(built, s);
    }

    /** The tallies are cleared and the proposer is drawn. */
    method EnterRound(seed: nat)
      requires st.vset != []
      modifies st`prepared, st`committed, st`roundMessages, st`proposer
      ensures Abs(true, false) == Drawn(old(Abs(false, false)), seed)
    {
      st.ResetRoundMsgs();
      st.proposer := CalcProposer(st.vset, seed);
    }

    /** The proposer's part of runAcceptState. */
    method OpenRound(built: Option<nat>, ghost s: Node)
      requires Valid() && st.state == AcceptState && Abs(true, false) == s
      modifies st`state, st`block, this`seals, this`sent, queue
      ensures Valid() && VotesDue(false) && st.state != CommitState
      ensures Abs(st.state == AcceptState, false) == Opened(s, built)
    {
      if st.proposer != me {
        return;
      }
      if !st.locked {
        match built
        case None =>
          st.block := None;
          st.state := RoundChangeState;
          return;
        case Some(digest) =>
          st.block := Some(Header(head.number + 1, digest));
      }
      SendProposal();
    }

    method SendProposal()
      requires Valid()
      modifies st`state, this`seals, this`sent, queue
      ensures Valid() && VotesDue(false) && seals == old(seals) && st.state == ValidateState
      ensures sent == old(sent) + {Own(Preprepare)} + {OwnPrepare()}
    {
      Gossip(Preprepare);
      Gossip(Prepare);
      st.state := ValidateState;
    }

    /** One turn of the message loop of runAcceptState. */
    method OnProposal(m: Message, verdict: Verdict)
      requires Valid() && (st.locked ==> st.block.Some?) && st.state == AcceptState
      modifies st`state, st`err, st`block, this`seals, this`sent, queue
      ensures Valid() && VotesDue(false) && st.state != CommitState
      ensures Abs(st.state == AcceptState, false) == AcceptMessage(old(Abs(true, false)), m, verdict)
    {
      if m.from != st.proposer {
        return;
      }
      if m.proposal.None? {
        st.state := RoundChangeState;
      } else if st.locked {
        if m.proposal == st.block {
          Gossip(Commit);
          st.state := ValidateState;
        } else {
          HandleStateError();
        }
      } else {
        OnNewProposal(m.proposal, verdict);
      }
    }

    /** A proposal for a node without a lock. */
    method OnNewProposal(proposal: Option<Header>, verdict: Verdict)
      requires Valid() && !st.locked && st.state == AcceptState
      modifies st`state, st`err, st`block, this`seals, this`sent, queue
      ensures Valid() && VotesDue(false) && st.state != CommitState
      ensures Abs(st.state == AcceptState, false) == AcceptNew(old(Abs(true, false)), proposal, verdict)
    {
      match verdict
      case VerifyFailed => HandleStateError();
      case HookUnavailable =>
      case Verified =>
        st.block := proposal;
        Gossip(Prepare);
        st.state := ValidateState;
    }

    method AcceptTurn(policy: Policy, wakes: seq<Wake>, verdict: (Header, Header) -> Verdict, ghost s: Node)
        returns (ok: bool, ghost ev: Event, ghost s': Node)
      requires Valid() && Abs(true, false) == s && (st.locked ==> st.block.Some?) && st.state == AcceptState
      requires HeightsChecked(policy, verdict) && st.view.sequence == head.number + 1
      modifies st`state, st`err, st`block, this`seals, this`sent, queue
      ensures Valid() && VotesDue(false) && st.state != CommitState && Abs(st.state == AcceptState, false) == s'
      ensures s' == if ok then Next(s, ev) else s
      ensures !ok ==> st.state == AcceptState
      ensures Allowed(policy, s, ev) && (ev.Timeout? || (ev.Read? && Readable(s, ev.m)))
    {
      ev := Timeout(false);
      s' := s;
      var msg, rest;
      ok, msg, rest := GetNextMessage(wakes);
      if ok && msg.None? {
        st.state := RoundChangeState;
      } else if ok {
        var m := msg.value;
        var v := if m.proposal.Some? then verdict(head, m.proposal.value) else Verified;
        ev := Read(m, v);
        assert Readable(s, m);
        OnProposal(m, v);
      }
      s' := if ok then Next(s, ev) else s;
    }

    /** runAcceptState. `found`, `seed`, `built` and `verdict` are what the snapshot store, the draw, the block builder
        and the block verifier answer; each element of `turns` is what happens during one wait, and the node is
        closed after the last one. */
    method RunAcceptState(policy: Policy, found: bool, seed: nat, built: Option<nat>,
                          verdict: (Header, Header) -> Verdict, turns: seq<seq<Wake>>)
        returns (closed: bool, ghost evs: seq<Event>)
      requires Valid() && Inv(Abs(false, false)) && st.state == AcceptState && HeightsChecked(policy, verdict)
      requires EnterAllowed(policy, head, seed, built)
      modifies this`seals, this`sent, queue
      modifies st`state, st`prepared, st`committed, st`roundMessages, st`proposer, st`block, st`err
      ensures Valid() && VotesDue(false) && st.state != CommitState
      ensures Abs(st.state == AcceptState, false) == Run(old(Abs(false, false)), evs)
      ensures AllAllowed(policy, old(Abs(false, false)), evs)
      ensures Waited(evs, 1, |turns|, st.state == AcceptState, closed)
      ensures evs[0] == EnterAccept(found, seed, built)
    {
      closed := false;
      ghost var s0 := Abs(false, false);
      ghost var enter := EnterAccept(found, seed, built);
      evs := [enter];
      Extend(policy, s0, [], enter);
      BeginAcceptState(found, seed, built);
      if st.state == AcceptState {
        closed, evs := AcceptLoop(policy, verdict, turns, s0, enter);
      }
    }

    method AcceptStep(policy: Policy, wakes: seq<Wake>, verdict: (Header, Header) -> Verdict, ghost s0: Node,
                      ghost evs: seq<Event>, ghost s: Node, ghost turns: nat)
        returns (ok: bool, ghost evs': seq<Event>, ghost s': Node)
      requires Valid() && Abs(true, false) == s && st.state == AcceptState
      requires HeightsChecked(policy, verdict) && st.view.sequence == head.number + 1
      requires Looping(policy, s0, evs, s, 1, turns) && |evs| < 1 + turns
      modifies st`state, st`err, st`block, this`seals, this`sent, queue
      ensures Valid() && VotesDue(false) && st.state != CommitState && Abs(st.state == AcceptState, false) == s'
      ensures Looping(policy, s0, evs', s', 1, turns) && evs'[0] == evs[0]
      ensures if ok then |evs'| == |evs| + 1 else |evs'| == |evs| && st.state == AcceptState
    {
      ghost var ev;
      ok, ev, s' := AcceptTurn(policy, wakes, verdict, s);
      evs' := evs;
      if ok {
        LeadsOn(policy, s0, evs, s, ev, 1, turns);
        evs' := evs + [ev];
      }
    }

    /** The message loop of runAcceptState, after the event that entered the state. */
    method AcceptLoop(policy: Policy, verdict: (Header, Header) -> Verdict, turns: seq<seq<Wake>>,
                      ghost s0: Node, ghost enter: Event)
        returns (closed: bool, ghost evs: seq<Event>)
      requires Valid() && VotesDue(false) && st.state == AcceptState && HeightsChecked(policy, verdict)
      requires Inv(s0) && AllAllowed(policy, s0, [enter]) && Abs(true, false) == Run(s0, [enter])
      requires st.view.sequence == head.number + 1
      modifies this`seals, this`sent, queue, st`state, st`block, st`err
      ensures Valid() && VotesDue(false) && st.state != CommitState
      ensures Abs(st.state == AcceptState, false) == Run(s0, evs) && AllAllowed(policy, s0, evs)
      ensures Waited(evs, 1, |turns|, st.state == AcceptState, closed) && evs[0] == enter
    {
      closed, evs := false, [enter];
      ghost var s := Abs(true, false);
      InvRun(s0, evs);
      var i := 0;
      while st.state == AcceptState && i < |turns|
        invariant Valid() && VotesDue(false) && st.state != CommitState && |evs| == i + 1
        invariant Abs(st.state == AcceptState, false) == s
        invariant Looping(policy, s0, evs, s, 1, |turns|) && evs[0] == enter
        invariant st.view.sequence == head.number + 1
      {
        var ok;
        ok, evs, s := AcceptStep(policy, turns[i], verdict, s0, evs, s, |turns|);
        if !ok {
          closed := true;
          return;
        }
        i := i + 1;
      }
    }

    /** The closure sendCommit of runValidateState. */
    method DoSendCommit(hasCommitted: bool) returns (committed: bool)
      requires Valid() && st.block.Some?
      modifies st`locked, this`seals, this`sent, queue
      ensures Valid() && committed
      ensures Abs(false, true) == SendCommit(old(Abs(false, hasCommitted)))
      ensures forall m :: m in old(queue.validateStateQueue) ==> m in queue.validateStateQueue
      ensures !hasCommitted ==> OwnCommit() in queue.validateStateQueue
    {
      st.DoLock();
      if !hasCommitted {
        Gossip(Commit);
      }
      committed := true;
    }

    /** One turn of the message loop of runValidateState. */
    method OnVote(m: Message, hasCommitted: bool) returns (committed: bool)
      requires Valid() && st.block.Some? && st.state == ValidateState && (m.typ == Prepare || m.typ == Commit)
      modifies st`state, st`prepared, st`committed, st`roundMessages, st`locked, this`seals, this`sent, queue
      ensures Valid()
      ensures Abs(false, committed) == ValidateMessage(old(Abs(false, hasCommitted)), m)
      ensures st.state == ValidateState || st.state == CommitState
      ensures forall x :: x in old(queue.validateStateQueue) ==> x in queue.validateStateQueue
      ensures st.Msgs() == Tallied(old(st.Msgs()), st.vset, m) && st.block == old(st.block) && st.view == old(st.view)
      ensures committed && !hasCommitted ==> OwnCommit() in queue.validateStateQueue
      ensures hasCommitted ==> committed
    {
      committed := hasCommitted;
      ghost var t := AddMessage(Abs(false, hasCommitted), m);
      st.DoAddMessage(m);
      assert Abs(false, hasCommitted) == t;
      if |st.prepared| > st.NumValid() {
        committed := DoSendCommit(committed);
        t := SendCommit(t);
      }
      assert Abs(false, committed) == t;
      if |st.committed| > st.NumValid() {
        committed := DoSendCommit(committed);
        st.state := CommitState;
      }
    }

    /** insertBlock and what runValidateState does around it: the seals of all tallied commit messages go into the
        header before it is written. */
    method CommitBlock(write: (Header, Tally) -> InsertOutcome, ghost hasCommitted: bool)
        returns (outcome: InsertOutcome)
      requires Valid() && st.block.Some? && st.state == CommitState
      modifies st`state, st`block, st`locked, st`err, st`view, this`head
      ensures Valid() && st.state != ValidateState && st.state != CommitState
      ensures outcome == OutcomeOf(write, old(Abs(false, hasCommitted)))
      ensures Abs(false, false) == InsertBlock(old(Abs(false, hasCommitted)), outcome)
    {
      var block := st.block.value;
      st.Unlock();
      outcome := write(block, st.committed);
      if outcome == WriteFailed {
        HandleStateError();
        return;
      }
      if block.number > head.number {
        head := block;
      }
      if outcome == InsertHookFailed {
        HandleStateError();
        return;
      }
      st.view := View(block.number + 1, 0);
      st.state := AcceptState;
    }

    /** getNextMessage in ValidateState: the node's own votes, if due, stay due or are what it returns. */
    method NextVote(wakes: seq<Wake>, ghost hasCommitted: bool) returns (ok: bool, msg: Option<Message>)
      requires Valid() && VotesDue(hasCommitted) && st.state == ValidateState
      modifies queue
      ensures Valid() && (!ok || msg.None? ==> VotesDue(hasCommitted))
      ensures ok && msg.Some? ==> StillDue(msg.value, hasCommitted)
      ensures ok && msg.Some? ==>
        StateOf(msg.value.typ) == ValidateState && Deliverable(ValidateState, msg.value, st.view)
      ensures ok && msg.None? ==> TimeoutAllowed(Abs(false, hasCommitted))
    {
      assert Deliverable(ValidateState, OwnPrepare(), st.view) && Deliverable(ValidateState, OwnCommit(), st.view);
      assert queue.Queue(ValidateState) == queue.validateStateQueue;
      var rest;
      ok, msg, rest := GetNextMessage(wakes);
      assert queue.Queue(ValidateState) == queue.validateStateQueue;
    }

    /** The node's own votes are due once m is counted. */
    ghost predicate StillDue(m: Message, hasCommitted: bool)
      reads this, st, queue
    {
      var commitDue := CommitDue() || m == OwnCommit();
      && (me in st.prepared || OwnPrepare() in queue.validateStateQueue || m == OwnPrepare() || commitDue)
      && (hasCommitted ==> commitDue)
    }

    /** One turn of the message loop keeps the node's own votes due until they are counted. */
    method CountVote(m: Message, hasCommitted: bool) returns (committed: bool)
      requires Valid() && st.block.Some? && me in st.vset && st.state == ValidateState
      requires StateOf(m.typ) == ValidateState
      requires StillDue(m, hasCommitted)
      modifies st`state, st`prepared, st`committed, st`roundMessages, st`locked, this`seals, this`sent, queue
      ensures Valid() && VotesDue(committed)
      ensures Abs(false, committed) == ValidateMessage(old(Abs(false, hasCommitted)), m)
      ensures st.state == ValidateState || st.state == CommitState
    {
      TalliedKeeps(st.Msgs(), st.vset, m);
      ghost var prepared, tallied := st.prepared.Keys, st.committed.Keys;
      committed := OnVote(m, hasCommitted);
      assert prepared <= st.Msgs().prepared.Keys && tallied <= st.Msgs().committed.Keys;
      assert m == OwnPrepare() ==> me in st.Msgs().prepared;
      assert m == OwnCommit() ==> me in st.Msgs().committed;
    }

    method ValidateTurn(policy: Policy, wakes: seq<Wake>, hasCommitted: bool, ghost s: Node)
        returns (ok: bool, committed: bool, ghost ev: Event, ghost s': Node)
      requires Valid() && VotesDue(hasCommitted) && Abs(false, hasCommitted) == s && st.state == ValidateState
      requires st.block.Some? && me in st.vset
      modifies st`state, st`prepared, st`committed, st`roundMessages, st`locked, this`seals, this`sent, queue
      ensures Valid() && VotesDue(committed) && Abs(false, committed) == s'
      ensures s' == if ok then Next(s, ev) else s
      ensures st.state == ValidateState || st.state == CommitState || (st.state == RoundChangeState && !committed)
      ensures ok ==> Allowed(policy, s, ev)
      ensures ev.Timeout? || (ev.Read? && Readable(s, ev.m))
    {
      ev, committed := Timeout(false), hasCommitted;
      var msg;
      ok, msg := NextVote(wakes, hasCommitted);
      if ok && msg.None? {
        st.state := RoundChangeState;
        committed := false;
      } else if ok {
        ev := Read(msg.value, Verified);
        assert Readable(s, msg.value);
        committed := CountVote(msg.value, hasCommitted);
      }
      s' := if ok then Next(s, ev) else s;
    }

    method ValidateStep(policy: Policy, wakes: seq<Wake>, hasCommitted: bool, ghost s0: Node, ghost evs: seq<Event>,
                        ghost s: Node, ghost turns: nat)
        returns (ok: bool, committed: bool, ghost evs': seq<Event>, ghost s': Node)
      requires Valid() && VotesDue(hasCommitted) && Abs(false, hasCommitted) == s && st.state == ValidateState
      requires Looping(policy, s0, evs, s, 0, turns) && |evs| < turns
      modifies st`state, st`prepared, st`committed, st`roundMessages, st`locked, this`seals, this`sent, queue
      ensures Valid() && VotesDue(committed) && Abs(false, committed) == s' && Looping(policy, s0, evs', s', 0, turns)
      ensures st.state == ValidateState || st.state == CommitState || (st.state == RoundChangeState && !committed)
      ensures |evs'| == if ok then |evs| + 1 else |evs|
    {
      ghost var ev;
      ok, committed, ev, s' := ValidateTurn(policy, wakes, hasCommitted, s);
      evs' := evs;
      if ok {
        LeadsOn(policy, s0, evs, s, ev, 0, turns);
        evs' := evs + [ev];
      }
    }

    /** The message loop of runValidateState. */
    method ValidateLoop(policy: Policy, turns: seq<seq<Wake>>)
        returns (closed: bool, hasCommitted: bool, ghost evs: seq<Event>)
      requires Valid() && VotesDue(false) && Inv(Abs(false, false)) && st.state == ValidateState
      modifies st`state, st`prepared, st`committed, st`roundMessages, st`locked, this`seals, this`sent, queue
      ensures Valid() && VotesDue(hasCommitted)
      ensures st.state == ValidateState || st.state == CommitState || !hasCommitted
      ensures Abs(false, hasCommitted) == Run(old(Abs(false, false)), evs)
      ensures AllAllowed(policy, old(Abs(false, false)), evs)
      ensures Waited(evs, 0, |turns|, st.state == ValidateState, closed)
      ensures st.state != AcceptState && st.state != SyncState
    {
      ghost var s0, s := Abs(false, false), Abs(false, false);
      closed, evs, hasCommitted := false, [], false;
      var i := 0;
      while st.state == ValidateState && i < |turns|
        invariant Valid() && VotesDue(hasCommitted) && |evs| == i && Abs(false, hasCommitted) == s
        invariant st.state == ValidateState || st.state == CommitState
                  || (st.state == RoundChangeState && !hasCommitted)
        invariant Looping(policy, s0, evs, s, 0, |turns|)
      {
        var ok;
        ok, hasCommitted, evs, s := ValidateStep(policy, turns[i], hasCommitted, s0, evs, s, |turns|);
        if !ok {
          closed := true;
          return;
        }
        i := i + 1;
      }
    }

    /** runValidateState. The flag hasCommitted is returned for the case that the node is closed. */
    method RunValidateState(policy: Policy, turns: seq<seq<Wake>>, write: (Header, Tally) -> InsertOutcome)
        returns (closed: bool, hasCommitted: bool, ghost evs: seq<Event>)
      requires Valid() && VotesDue(false) && Inv(Abs(false, false)) && st.state == ValidateState
      requires WritesFit(policy, write)
      modifies this`seals, this`sent, this`head, queue
      modifies st`state, st`prepared, st`committed, st`roundMessages, st`block, st`locked, st`err, st`view
      ensures Valid() && VotesDue(hasCommitted) && (st.state != ValidateState ==> !hasCommitted)
      ensures Abs(false, hasCommitted) == Run(old(Abs(false, false)), evs)
      ensures AllAllowed(policy, old(Abs(false, false)), evs)
      ensures st.state != CommitState
      ensures Waited(evs, 0, |turns|, st.state == ValidateState, closed)
        || (|evs| > 0 && Waited(evs[..|evs| - 1], 0, |turns|, false, closed)
            && WroteLast(old(Abs(false, false)), evs, write))
    {
      closed, hasCommitted, evs := ValidateLoop(policy, turns);
      if st.state == CommitState {
        ghost var s0, s := old(Abs(false, false)), Abs(false, hasCommitted);
        InvRun(s0, evs);
        var outcome := CommitBlock(write, hasCommitted);
        Extend(policy, s0, evs, Insert(outcome));
        assert (evs + [Insert(outcome)])[..|evs|] == evs;
        evs := evs + [Insert(outcome)];
        hasCommitted := false;
      }
    }

    /** The closure sendRoundChange of runRoundChangeState. */
    method DoSendRoundChange(round: nat)
      requires Valid()
      modifies st`view, st`roundMessages, this`seals, this`sent, queue
      ensures Valid()
      ensures forall entered :: Abs(entered, false) == SendRoundChange(old(Abs(entered, false)), round)
    {
      st.view := st.view.(round := round);
      st.CleanRound(round);
      Gossip(RoundChange);
    }

    /** The closure checkTimeout of runRoundChangeState. */
    method DoCheckTimeout(peerAhead: bool)
      requires Valid() && st.state == RoundChangeState
      modifies st`state, st`view, st`roundMessages, this`seals, this`sent, queue
      ensures Valid() && (st.state == RoundChangeState || st.state == SyncState)
      ensures Abs(st.state == RoundChangeState, false) == CheckTimeout(old(Abs(true, false)), peerAhead)
    {
      if peerAhead {
        st.state := SyncState;
      } else {
        DoSendRoundChange(st.view.round + 1);
      }
    }

    /** runRoundChangeState, before its message loop. */
    method BeginRoundChangeState(peerAhead: bool)
      requires Valid() && st.state == RoundChangeState
      modifies st`state, st`view, st`roundMessages, st`err, this`seals, this`sent, queue
      ensures Valid() && (st.state == RoundChangeState || st.state == SyncState)
      ensures Abs(st.state == RoundChangeState, false) == BeginRoundChange(old(Abs(false, false)), peerAhead)
    {
      var err := st.GetErr();
      if err {
        DoSendRoundChange(st.view.round + 1);
      } else {
        var maxRound, found := st.MaxRoundMessages();
        if found {
          DoSendRoundChange(maxRound);
        } else {
          DoCheckTimeout(peerAhead);
        }
      }
    }

    /** One turn of the message loop of runRoundChangeState. */
    method RoundChangeTurn(wakes: seq<Wake>, peerAhead: bool, ghost s: Node)
        returns (ok: bool, ghost ev: Event, ghost s': Node)
      requires Valid() && st.state == RoundChangeState && Abs(true, false) == s
      modifies st`state, st`view, st`prepared, st`committed, st`roundMessages, this`seals, this`sent, queue
      ensures Valid() && st.state != ValidateState && st.state != CommitState
      ensures Abs(st.state == RoundChangeState, false) == s' == if ok then Next(s, ev) else s
      ensures !ok ==> st.state == RoundChangeState
      ensures ev == Timeout(peerAhead) || (ev.Read? && Readable(s, ev.m))
    {
      ev := Timeout(peerAhead);
      var msg, rest;
      ok, msg, rest := GetNextMessage(wakes);
      if ok && msg.None? {
        DoCheckTimeout(peerAhead);
      } else if ok {
        ev := Read(msg.value, Verified);
        assert Readable(s, msg.value);
        OnRoundChange(msg.value);
      }
      s' := if ok then Next(s, ev) else s;
    }

    method OnRoundChange(m: Message)
      requires Valid() && st.state == RoundChangeState && m.typ == RoundChange
      modifies st`state, st`view, st`prepared, st`committed, st`roundMessages, this`seals, this`sent, queue
      ensures Valid() && (st.state == RoundChangeState || st.state == AcceptState)
      ensures Abs(st.state == RoundChangeState, false) == RoundChangeMessage(old(Abs(true, false)), m)
    {
      var num := st.AddRoundMessage(m);
      if num == st.NumValid() {
        st.view := st.view.(round := m.view.round);
        st.state := AcceptState;
      } else if num == MaxFaultyNodes(|st.vset|) + 1 {
        if st.view.round < m.view.round {
          DoSendRoundChange(m.view.round);
        }
      }
    }

    /** runRoundChangeState */
    method RunRoundChangeState(policy: Policy, peerAhead: seq<bool>, turns: seq<seq<Wake>>)
        returns (closed: bool, ghost evs: seq<Event>)
      requires Valid() && Inv(Abs(false, false)) && st.state == RoundChangeState && |peerAhead| == |turns| + 1
      modifies this`seals, this`sent, queue
      modifies st`state, st`view, st`prepared, st`committed, st`roundMessages, st`err
      ensures Valid() && st.state != ValidateState && st.state != CommitState
      ensures Abs(st.state == RoundChangeState, false) == Run(old(Abs(false, false)), evs)
      ensures AllAllowed(policy, old(Abs(false, false)), evs)
      ensures Waited(evs, 1, |turns|, st.state == RoundChangeState, closed) && evs[0] == EnterRoundChange(peerAhead[0])
    {
      closed := false;
      ghost var s0 := Abs(false, false);
      evs := [EnterRoundChange(peerAhead[0])];
      Extend(policy, s0, [], EnterRoundChange(peerAhead[0]));
      BeginRoundChangeState(peerAhead[0]);
      if st.state == RoundChangeState {
        closed, evs := RoundChangeLoop(policy, peerAhead, turns, s0);
      }
    }

    method RoundChangeStep(policy: Policy, wakes: seq<Wake>, peerAhead: bool, ghost s0: Node, ghost evs: seq<Event>,
                           ghost s: Node, ghost turns: nat)
        returns (ok: bool, ghost evs': seq<Event>, ghost s': Node)
      requires Valid() && st.state == RoundChangeState && Abs(true, false) == s
      requires Looping(policy, s0, evs, s, 1, turns) && |evs| < 1 + turns
      modifies st`state, st`view, st`prepared, st`committed, st`roundMessages, this`seals, this`sent, queue
      ensures Valid() && st.state != ValidateState && st.state != CommitState
      ensures Abs(st.state == RoundChangeState, false) == s'
      ensures Looping(policy, s0, evs', s', 1, turns) && evs'[0] == evs[0]
      ensures if ok then |evs'| == |evs| + 1 else |evs'| == |evs| && st.state == RoundChangeState
    {
      ghost var ev;
      ok, ev, s' := RoundChangeTurn(wakes, peerAhead, s);
      evs' := evs;
      if ok {
        LeadsOn(policy, s0, evs, s, ev, 1, turns);
        evs' := evs + [ev];
      }
    }

    /** The message loop of runRoundChangeState. */
    method RoundChangeLoop(policy: Policy, peerAhead: seq<bool>, turns: seq<seq<Wake>>, ghost s0: Node)
        returns (closed: bool, ghost evs: seq<Event>)
      requires Valid() && st.state == RoundChangeState && |peerAhead| == |turns| + 1
      requires Inv(s0) && AllAllowed(policy, s0, [EnterRoundChange(peerAhead[0])])
      requires Abs(true, false) == Run(s0, [EnterRoundChange(peerAhead[0])])
      modifies this`seals, this`sent, queue, st`state, st`view, st`prepared, st`committed, st`roundMessages
      ensures Valid() && st.state != ValidateState && st.state != CommitState
      ensures Abs(st.state == RoundChangeState, false) == Run(s0, evs) && AllAllowed(policy, s0, evs)
      ensures Waited(evs, 1, |turns|, st.state == RoundChangeState, closed) && evs[0] == EnterRoundChange(peerAhead[0])
    {
      closed, evs := false, [EnterRoundChange(peerAhead[0])];
      ghost var s := Abs(true, false);
      InvRun(s0, evs);
      var i := 0;
      while st.state == RoundChangeState && i < |turns|
        invariant Valid() && |evs| == i + 1 && st.state != ValidateState && st.state != CommitState
        invariant Abs(st.state == RoundChangeState, false) == s
        invariant Looping(policy, s0, evs, s, 1, |turns|) && evs[0] == EnterRoundChange(peerAhead[0])
      {
        var ok;
        ok, evs, s := RoundChangeStep(policy, turns[i], peerAhead[i + 1], s0, evs, s, |turns|);
        if !ok {
          closed := true;
          return;
        }
        i := i + 1;
      }
    }

    method CycleAccept(policy: Policy, verdict: (Header, Header) -> Verdict, a: Answers) returns (stopped: bool)
      requires Valid() && st.state == AcceptState && Reachable(policy, Abs(false, false)) && Fits(policy, verdict, a)
      modifies this`seals, this`sent, queue, st
      ensures Valid() && VotesDue(false) && st.state != CommitState && stopped == (st.state == AcceptState)
      ensures Reachable(policy, Abs(stopped, false))
    {
      ghost var s0 := Abs(false, false);
      ReachableInv(policy, s0);
      var closed;
      ghost var evs;
      closed, evs := RunAcceptState(policy, a.found, a.seed(head), a.built(head), verdict, a.turns);
      ReachableRun(policy, s0, evs);
      stopped := st.state == AcceptState;
    }

    method CycleValidate(policy: Policy, verdict: (Header, Header) -> Verdict, a: Answers)
        returns (stopped: bool, hasCommitted: bool)
      requires Valid() && VotesDue(false) && st.state == ValidateState
      requires Reachable(policy, Abs(false, false)) && Fits(policy, verdict, a)
      modifies this`head, this`seals, this`sent, queue, st
      ensures Valid() && VotesDue(hasCommitted) && st.state != CommitState && (!stopped ==> !hasCommitted)
      ensures Reachable(policy, Abs(false, hasCommitted))
    {
      ghost var s0 := Abs(false, false);
      ReachableInv(policy, s0);
      var closed;
      ghost var evs;
      closed, hasCommitted, evs := RunValidateState(policy, a.turns, a.write);
      ReachableRun(policy, s0, evs);
      stopped := st.state == ValidateState;
    }

    method CycleRoundChange(policy: Policy, verdict: (Header, Header) -> Verdict, a: Answers) returns (stopped: bool)
      requires Valid() && st.state == RoundChangeState && Reachable(policy, Abs(false, false))
      requires Fits(policy, verdict, a)
      modifies this`seals, this`sent, queue, st
      ensures Valid() && st.state != ValidateState && st.state != CommitState
      ensures stopped == (st.state == RoundChangeState)
      ensures Reachable(policy, Abs(stopped, false))
    {
      ghost var s0 := Abs(false, false);
      ReachableInv(policy, s0);
      var closed;
      ghost var evs;
      closed, evs := RunRoundChangeState(policy, a.peerAhead, a.turns);
      ReachableRun(policy, s0, evs);
      stopped := st.state == RoundChangeState;
    }

    /** runCycle. It stops inside a state loop if the node is closed there. */
    method RunCycle(policy: Policy, verdict: (Header, Header) -> Verdict, a: Answers)
        returns (stopped: bool, ghost entered: bool, ghost hasCommitted: bool)
      requires Valid() && VotesDue(false) && Reachable(policy, Abs(false, false)) && Fits(policy, verdict, a)
      requires st.state != CommitState
      modifies this`head, this`seals, this`sent, queue, st
      ensures Valid() && VotesDue(hasCommitted) && Reachable(policy, Abs(entered, hasCommitted))
      ensures st.state != CommitState && (!stopped ==> !entered && !hasCommitted)
    {
      stopped, entered, hasCommitted := false, false, false;
      match st.state
      case SyncState =>
        ghost var s0 := Abs(false, false);
        ghost var evs := RunSyncState(policy, a.sync);
        ReachableRun(policy, s0, evs);
      case AcceptState =>
        stopped := CycleAccept(policy, verdict, a);
        entered := stopped;
      case RoundChangeState =>
        stopped := CycleRoundChange(policy, verdict, a);
        entered := stopped;
      case ValidateState =>
        stopped, hasCommitted := CycleValidate(policy, verdict, a);
    }

    /** start: from its construction to its closing, whatever it is answered, the object is in a state that the
        transition function reaches; so it seals one header per height if writes do not fail and heights
        are checked. */
    method Start(policy: Policy, verdict: (Header, Header) -> Verdict, cycles: seq<Answers>)
        returns (ghost entered: bool, ghost hasCommitted: bool)
      requires Valid() && VotesDue(false) && Abs(false, false) == InitialNode(st.vset, me, head)
      requires forall a :: a in cycles ==> Fits(policy, verdict, a)
      modifies this`head, this`seals, this`sent, queue, st
      ensures Valid() && Reachable(policy, Abs(entered, hasCommitted))
      ensures Strict(policy) ==> forall x, y :: x in seals && y in seals && x.number == y.number ==> x == y
    {
      ReachableInitial(policy, st.vset, me, head);
      entered, hasCommitted := false, false;
      var i, stopped := 0, false;
      while i < |cycles| && !stopped
        invariant Valid() && VotesDue(hasCommitted) && st.state != CommitState
        invariant Reachable(policy, Abs(entered, hasCommitted)) && (!stopped ==> !entered && !hasCommitted)
      {
        assert cycles[i] in cycles;
        stopped, entered, hasCommitted := RunCycle(policy, verdict, cycles[i]);
        i := i + 1;
      }
      if Strict(policy) {
        ReachableSealsOnce(policy, Abs(entered, hasCommitted));
      }
    }
  }
}
