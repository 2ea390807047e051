/** One PVBFT node as a transition function: consensus/pvbft/ibft.go (runAcceptState, runValidateState,
    runRoundChangeState, insertBlock) over the currentState of state.go. What the node cannot decide
    itself (clocks, the network, the seed of the proposer draw, block verification and storage) is in the
    event. */
module Pvbft {
  import opened Types
  import opened MsgQueues
  import opened Quorum

  type Tally = map<Address, Message>

  datatype RoundMsgs = RoundMsgs(prepared: Tally, committed: Tally, rounds: map<nat, Tally>)

  const NO_MSGS := RoundMsgs(map[], map[], map[])

  /** Where the node is: `entered` once the run function of the state is past its preamble, and
      `hasCommitted` for the flag of that name inside runValidateState. */
  datatype Phase = Phase(state: IbftState, entered: bool, hasCommitted: bool)

  datatype Lock = Lock(block: Option<Header>, locked: bool)

  datatype Node = Node(
    vset: seq<Address>,
    me: Address,
    phase: Phase,
    lock: Lock,
    proposer: Address,
    view: View,
    msgs: RoundMsgs,
    failed: bool,           // state.err is set
    head: Header,           // the chain's current header
    seals: seq<Header>,     // headers of the commit seals gossiped so far
    sent: set<Message>)     // messages gossiped so far
  {
    function NumValid(): nat {
      2 * MaxFaultyNodes(|vset|)
    }
  }

  datatype Verdict = Verified | VerifyFailed | HookUnavailable

  datatype InsertOutcome = Inserted | WriteFailed | InsertHookFailed

  datatype Event =
    | HeadMoves(head: Header)
    | Sync(found: bool)
    | EnterAccept(found: bool, seed: nat, built: Option<nat>)
    | EnterRoundChange(peerAhead: bool)
    | Timeout(peerAhead: bool)
    | Read(m: Message, verdict: Verdict)
    | Insert(outcome: InsertOutcome)

  function InitialNode(vset: seq<Address>, me: Address, head: Header): Node {
    Node(vset, me, Phase(SyncState, false, false), Lock(None, false), 0, View(0, 0), NO_MSGS, false, head, [], {})
  }

  /** CalcProposer of validator.go: the draw depends on nothing but the parent header behind the seed. */
  function CalcProposer(vset: seq<Address>, seed: nat): (proposer: Address)
    requires vset != []
    ensures proposer in vset
  {
    vset[seed % |vset|]
  }

  // ----- state.go -----

  /** addMessage: only messages from validators are tallied, at most one per validator. */
  function Tallied(t: RoundMsgs, vset: seq<Address>, m: Message): RoundMsgs {
    if m.from !in vset then t else
    match m.typ
    case Commit => t.(committed := t.committed[m.from := m])
    case Prepare => t.(prepared := t.prepared[m.from := m])
    case RoundChange =>
      var round := if m.view.round in t.rounds then t.rounds[m.view.round] else map[];
      t.(rounds := t.rounds[m.view.round := round[m.from := m]])
    case Preprepare => t
  }

  function AddMessage(s: Node, m: Message): Node {
    s.(msgs := Tallied(s.msgs, s.vset, m))
  }

  function RoundCount(rounds: map<nat, Tally>, round: nat): nat {
    if round in rounds then |rounds[round]| else 0
  }

  /** A round that maxRound may return: not round 0, and with F + 1 messages. */
  predicate WeakRound(rounds: map<nat, Tally>, n: nat, round: nat) {
    round > 0 && RoundCount(rounds, round) >= MaxFaultyNodes(n) + 1
  }

  ghost function Greatest(rounds: set<nat>): (m: nat)
    requires rounds != {}
    ensures m in rounds && forall k :: k in rounds ==> k <= m
    decreases rounds
  {
    var x :| x in rounds;
    if rounds == {x} then x else
      assert rounds == {x} + (rounds - {x});
      var y := Greatest(rounds - {x});
      if x > y then x else y
  }

  /** What maxRound finds among the round messages of n validators. */
  ghost function MaxRound(rounds: map<nat, Tally>, n: nat): (r: Option<nat>)
    ensures match r
            case Some(k) => WeakRound(rounds, n, k) && forall j: nat :: WeakRound(rounds, n, j) ==> j <= k
            case None => forall j: nat :: !WeakRound(rounds, n, j)
  {
    var weak := set k | k in rounds && WeakRound(rounds, n, k);
    assert forall j: nat :: WeakRound(rounds, n, j) ==> j in weak;
    if weak == {} then None else Some(Greatest(weak))
  }

  // ----- ibft.go -----

  function Goto(s: Node, state: IbftState): Node {
    s.(phase := Phase(state, false, false))
  }

  function Entered(s: Node): Node {
    s.(phase := s.phase.(entered := true))
  }

  function HandleStateErr(s: Node): Node {
    Goto(s.(failed := true), RoundChangeState)
  }

  /** gossip */
  function Send(s: Node, typ: MsgType, proposal: Option<Header>): Node {
    s.(sent := s.sent + {Message(s.me, typ, s.view, proposal)})
  }

  /** gossip of a commit message: the seal covers the header of state.block. */
  function EmitSeal(s: Node): Node {
    if s.lock.block.Some? then Send(s.(seals := s.seals + [s.lock.block.value]), Commit, s.lock.block) else s
  }

  /** sendCommit, the closure of runValidateState: lock, then seal once. */
  function SendCommit(s: Node): Node {
    var s := s.(lock := s.lock.(locked := true));
    if s.phase.hasCommitted then s else EmitSeal(s).(phase := s.phase.(hasCommitted := true))
  }

  function SendRoundChange(s: Node, round: nat): Node {
    Send(s.(view := s.view.(round := round), msgs := s.msgs.(rounds := s.msgs.rounds - {round})), RoundChange, None)
  }

  function CheckTimeout(s: Node, peerAhead: bool): Node {
    if peerAhead then Goto(s, SyncState) else SendRoundChange(s, s.view.round + 1)
  }

  /** The proposer sends its block and its own prepare message. */
  function Propose(s: Node): Node {
    Goto(Send(Send(s, Preprepare, s.lock.block), Prepare, None), ValidateState)
  }

  /** runAcceptState up to its message loop. `found` tells whether there is a snapshot for the head. */
  function BeginAccept(s: Node, found: bool, seed: nat, built: Option<nat>): Node {
    if s.head.number + 1 != s.view.sequence || !found || s.me !in s.vset then Goto(s, SyncState)
    else Opened(Drawn(s, seed), built)
  }

  /** The tallies are cleared and the proposer is drawn. */
  function Drawn(s: Node, seed: nat): Node
    requires s.vset != []
  {
    Entered(s.(msgs := NO_MSGS, proposer := CalcProposer(s.vset, seed)))
  }

  /** The proposer proposes the block it is locked on or has built. */
  function Opened(s: Node, built: Option<nat>): Node {
    if s.proposer != s.me then s
    else if s.lock.locked then Propose(s)
    else match built
      case None => Goto(s.(lock := Lock(None, false)), RoundChangeState)
      case Some(digest) => Propose(s.(lock := Lock(Some(Header(s.head.number + 1, digest)), false)))
  }

  /** One turn of the message loop of runAcceptState. */
  function AcceptMessage(s: Node, m: Message, verdict: Verdict): Node {
    if m.from != s.proposer then s
    else if m.proposal.None? then Goto(s, RoundChangeState)
    else if s.lock.locked then
      if m.proposal == s.lock.block then Goto(EmitSeal(s), ValidateState) else HandleStateErr(s)
    else AcceptNew(s, m.proposal, verdict)
  }

  /** A proposal that a node without a lock has verified. */
  function AcceptNew(s: Node, proposal: Option<Header>, verdict: Verdict): Node {
    match verdict
    case VerifyFailed => HandleStateErr(s)
    case HookUnavailable => s
    case Verified => Goto(Send(s.(lock := Lock(proposal, false)), Prepare, None), ValidateState)
  }

  function Committing(s: Node): Node {
    s.(phase := s.phase.(state := CommitState))
  }

  /** One turn of the message loop of runValidateState. */
  function ValidateMessage(s: Node, m: Message): Node {
    var s := AddMessage(s, m);
    var s := if |s.msgs.prepared| > s.NumValid() then SendCommit(s) else s;
    if |s.msgs.committed| > s.NumValid() then Committing(SendCommit(s)) else s
  }

  /** runRoundChangeState up to its message loop. */
  ghost function BeginRoundChange(s: Node, peerAhead: bool): Node {
    if s.failed then Entered(SendRoundChange(s.(failed := false), s.view.round + 1))
    else match MaxRound(s.msgs.rounds, |s.vset|)
      case Some(round) => Entered(SendRoundChange(s, round))
      case None => CheckTimeout(Entered(s), peerAhead)
  }

  /** One turn of the message loop of runRoundChangeState. */
  function RoundChangeMessage(s: Node, m: Message): Node {
    var s := AddMessage(s, m);
    var num := RoundCount(s.msgs.rounds, m.view.round);
    if num == s.NumValid() then Goto(s.(view := s.view.(round := m.view.round)), AcceptState)
    else if num == MaxFaultyNodes(|s.vset|) + 1 && s.view.round < m.view.round then SendRoundChange(s, m.view.round)
    else s
  }

  /** The tail of runValidateState: unlock first, then insertBlock. */
  function InsertBlock(s: Node, outcome: InsertOutcome): Node {
    var block := if s.lock.block.Some? then s.lock.block.value else s.head;
    var s := s.(lock := Lock(None, false));
    var head := if block.number > s.head.number then block else s.head;
    match outcome
    case Inserted => Goto(s.(head := head, view := View(block.number + 1, 0)), AcceptState)
    case WriteFailed => HandleStateErr(s)
    case InsertHookFailed => HandleStateErr(s.(head := head))
  }

  /** readMessage may hand this message to the node now. */
  predicate Readable(s: Node, m: Message) {
    StateOf(m.typ) == s.phase.state && Deliverable(s.phase.state, m, s.view)
  }

  /** The whole node. An event that does not fit the state leaves it as it is. */
  ghost function Next(s: Node, ev: Event): Node {
    match ev
    case HeadMoves(head) => if head.number > s.head.number then s.(head := head) else s
    case Sync(found) =>
      if s.phase.state == SyncState && found && s.me in s.vset
      then Goto(s.(view := View(s.head.number + 1, 0)), AcceptState) else s
    case EnterAccept(found, seed, built) =>
      if s.phase.state == AcceptState && !s.phase.entered then BeginAccept(s, found, seed, built) else s
    case EnterRoundChange(peerAhead) =>
      if s.phase.state == RoundChangeState && !s.phase.entered then BeginRoundChange(s, peerAhead) else s
    case Timeout(peerAhead) =>
      if (s.phase.state == AcceptState && s.phase.entered) || s.phase.state == ValidateState
      then Goto(s, RoundChangeState)
      else if s.phase.state == RoundChangeState && s.phase.entered then CheckTimeout(s, peerAhead)
      else s
    case Read(m, verdict) =>
      if !Readable(s, m) then s
      else if s.phase.state == AcceptState && s.phase.entered then AcceptMessage(s, m, verdict)
      else if s.phase.state == ValidateState then ValidateMessage(s, m)
      else if s.phase.state == RoundChangeState && s.phase.entered then RoundChangeMessage(s, m)
      else s
    case Insert(outcome) => if s.phase.state == CommitState then InsertBlock(s, outcome) else s
  }

  ghost function Run(s: Node, evs: seq<Event>): Node {
    if evs == [] then s else Next(Run(s, evs[..|evs| - 1]), evs[|evs| - 1])
  }

  // ----- What every run keeps -----

  /** Messages of one type, for one view, each under its own validator. */
  ghost predicate Hygienic(t: Tally, typ: MsgType, view: View, vset: seq<Address>) {
    forall a :: a in t ==> a in vset && t[a].from == a && t[a].typ == typ && t[a].view == view
  }

  ghost predicate CleanTallies(t: RoundMsgs, view: View, vset: seq<Address>) {
    && Hygienic(t.prepared, Prepare, view, vset)
    && Hygienic(t.committed, Commit, view, vset)
    && t.rounds == map[]
  }

  ghost predicate Counting(s: Node) {
    s.phase.state == ValidateState || s.phase.state == CommitState || (s.phase.state == AcceptState && s.phase.entered)
  }

  ghost predicate CoreInv(s: Node) {
    && (s.lock.locked || s.phase.state == ValidateState || s.phase.state == CommitState ==> s.lock.block.Some?)
    && (s.phase.hasCommitted || s.phase.state == CommitState ==> s.lock.locked)
    && (Counting(s) ==> CleanTallies(s.msgs, s.view, s.vset))
    && (s.phase.state == RoundChangeState && !s.phase.entered ==> s.msgs.rounds == map[])
    && (s.phase.state == CommitState ==> s.phase.hasCommitted && |s.msgs.committed| > s.NumValid())
    && (s.phase.hasCommitted ==> s.lock.block.Some? && s.lock.block.value in s.seals)
    && (s.phase.state == AcceptState && s.phase.entered ==> s.msgs == NO_MSGS && s.proposer in s.vset)
    && (s.phase.state != SyncState ==> s.me in s.vset)
  }

  ghost predicate Inv(s: Node) {
    CoreInv(s) && (s.phase.state == ValidateState && |s.msgs.prepared| > s.NumValid() ==> s.lock.locked)
  }

  lemma InvBeginAccept(s: Node, found: bool, seed: nat, built: Option<nat>)
    requires Inv(s) && s.phase.state == AcceptState && !s.phase.entered
    ensures Inv(BeginAccept(s, found, seed, built))
  {
  }

  lemma InvAcceptMessage(s: Node, m: Message, verdict: Verdict)
    requires Inv(s) && s.phase.state == AcceptState && s.phase.entered
    ensures Inv(AcceptMessage(s, m, verdict))
  {
  }

  lemma InvAddMessage(s: Node, m: Message)
    requires Inv(s) && s.phase.state == ValidateState && Readable(s, m)
    ensures CoreInv(AddMessage(s, m))
  {
    assert CleanTallies(AddMessage(s, m).msgs, s.view, s.vset);
  }

  lemma InvSendCommit(s: Node)
    requires CoreInv(s) && s.phase.state == ValidateState
    ensures CoreInv(SendCommit(s)) && SendCommit(s).lock.locked
  {
  }

  lemma InvValidateMessage(s: Node, m: Message)
    requires Inv(s) && s.phase.state == ValidateState && Readable(s, m)
    ensures Inv(ValidateMessage(s, m))
  {
    InvAddMessage(s, m);
    var t := AddMessage(s, m);
    InvSendCommit(t);
    InvSendCommit(if |t.msgs.prepared| > t.NumValid() then SendCommit(t) else t);
  }

  lemma InvInsertBlock(s: Node, outcome: InsertOutcome)
    requires Inv(s) && s.phase.state == CommitState
    ensures Inv(InsertBlock(s, outcome))
  {
  }

  lemma InvRoundChange(s: Node, m: Message, peerAhead: bool)
    requires Inv(s) && s.phase.state == RoundChangeState
    ensures s.phase.entered ==> Inv(RoundChangeMessage(s, m)) && Inv(CheckTimeout(s, peerAhead))
    ensures !s.phase.entered ==> Inv(BeginRoundChange(s, peerAhead))
  {
  }

  lemma InvStep(s: Node, ev: Event)
    requires Inv(s)
    ensures Inv(Next(s, ev))
  {
    match ev
    case EnterAccept(found, seed, built) =>
      if s.phase.state == AcceptState && !s.phase.entered {
        InvBeginAccept(s, found, seed, built);
      }
    case Insert(outcome) =>
      if s.phase.state == CommitState {
        InvInsertBlock(s, outcome);
      }
    case Read(m, verdict) =>
      if Readable(s, m) {
        if s.phase.state == AcceptState && s.phase.entered {
          InvAcceptMessage(s, m, verdict);
        } else if s.phase.state == ValidateState {
          InvValidateMessage(s, m);
        } else if s.phase.state == RoundChangeState {
          InvRoundChange(s, m, false);
        }
      }
    case EnterRoundChange(peerAhead) =>
      if s.phase.state == RoundChangeState {
        InvRoundChange(s, Message(0, RoundChange, s.view, None), peerAhead);
      }
    case Timeout(peerAhead) =>
      if s.phase.state == RoundChangeState {
        InvRoundChange(s, Message(0, RoundChange, s.view, None), peerAhead);
      }
    case HeadMoves(head) =>
    case Sync(found) =>
  }

  lemma {:induction false} InvRun(s: Node, evs: seq<Event>)
    requires Inv(s)
    ensures Inv(Run(s, evs))
  {
    if evs != [] {
      InvRun(s, evs[..|evs| - 1]);
      InvStep(Run(s, evs[..|evs| - 1]), evs[|evs| - 1]);
    }
  }

  lemma InitialInv(vset: seq<Address>, me: Address, head: Header)
    ensures Inv(InitialNode(vset, me, head))
  {
  }

  /** Tally hygiene over every run: a node that is about to insert holds commit messages for exactly its
      own view from more than 2F different validators; while it counts, no other message is in a tally. */
  lemma CommitQuorum(vset: seq<Address>, me: Address, head: Header, evs: seq<Event>)
    ensures var s := Run(InitialNode(vset, me, head), evs);
            && (Counting(s) ==> CleanTallies(s.msgs, s.view, s.vset))
            && (s.phase.state == CommitState ==>
                  && |s.msgs.committed.Keys| > 2 * MaxFaultyNodes(|s.vset|)
                  && s.msgs.committed.Keys <= Elements(s.vset)
                  && forall a :: a in s.msgs.committed ==> s.msgs.committed[a].view == s.view)
  {
    InitialInv(vset, me, head);
    InvRun(InitialNode(vset, me, head), evs);
  }

  /** maxRound finds nothing on any run: when runRoundChangeState asks, no round message is held yet. */
  lemma MaxRoundNeverFound(vset: seq<Address>, me: Address, head: Header, evs: seq<Event>)
    ensures var s := Run(InitialNode(vset, me, head), evs);
            s.phase.state == RoundChangeState && !s.phase.entered ==> MaxRound(s.msgs.rounds, |s.vset|) == None
  {
    InitialInv(vset, me, head);
    InvRun(InitialNode(vset, me, head), evs);
  }

  lemma ViewOfBegin(s: Node, found: bool, seed: nat, built: Option<nat>, peerAhead: bool)
    requires s.msgs.rounds == map[]
    ensures BeginAccept(s, found, seed, built).view == s.view
    ensures BeginRoundChange(s, peerAhead).view.round >= s.view.round
  {
    assert MaxRound(s.msgs.rounds, |s.vset|) == None;
  }

  lemma ViewOfMessage(s: Node, m: Message, verdict: Verdict)
    requires s.phase.state != SyncState && Readable(s, m)
    ensures Next(s, Read(m, verdict)).view.round >= s.view.round
  {
    if s.phase.state == ValidateState {
      ViewOfVote(s, m);
    } else if s.phase.state == RoundChangeState {
      assert AddMessage(s, m).view == s.view;
    }
  }

  lemma ViewOfVote(s: Node, m: Message)
    ensures ValidateMessage(s, m).view == s.view
  {
    var t := AddMessage(s, m);
    assert t.view == s.view;
    assert SendCommit(t).view == t.view;
  }

  /** Within a sequence the round never decreases, unless the node comes out of SyncState or inserts a
      block it has been locked on since the height before. */
  lemma RoundNeverDecreases(s: Node, ev: Event)
    requires Inv(s) && s.phase.state != SyncState && Next(s, ev).view.sequence == s.view.sequence
    ensures Next(s, ev).view.round >= s.view.round ||
            (s.phase.state == CommitState && ev == Insert(Inserted) && s.lock.block.value.number + 1 == s.view.sequence)
  {
    match ev
    case EnterAccept(found, seed, built) => ViewOfBegin(s.(msgs := NO_MSGS), found, seed, built, false);
    case EnterRoundChange(peerAhead) =>
      if s.phase.state == RoundChangeState && !s.phase.entered {
        ViewOfBegin(s, false, 0, None, peerAhead);
      }
    case Read(m, verdict) =>
      if Readable(s, m) {
        ViewOfMessage(s, m, verdict);
      }
    case HeadMoves(head) =>
    case Sync(found) =>
    case Timeout(peerAhead) =>
    case Insert(outcome) =>
  }

  // ----- What a message leaves as it is -----

  /** The identity and the chain's head stay, what was sent stays sent, and no proposal is added. */
  ghost predicate Framed(s: Node, t: Node) {
    && t.vset == s.vset && t.me == s.me && t.head == s.head && s.sent <= t.sent
    && forall m :: m in t.sent ==> m in s.sent || m.typ != Preprepare
  }

  lemma FramedAccept(s: Node, m: Message, verdict: Verdict)
    ensures Framed(s, AcceptMessage(s, m, verdict))
  {
  }

  lemma FramedCommit(s: Node)
    ensures Framed(s, SendCommit(s))
  {
  }

  lemma FramedValidate(s: Node, m: Message)
    ensures Framed(s, ValidateMessage(s, m))
  {
    var t := AddMessage(s, m);
    assert t == s.(msgs := t.msgs);
    FramedCommit(t);
    FramedCommit(if |t.msgs.prepared| > t.NumValid() then SendCommit(t) else t);
  }

  lemma FramedRoundChange(s: Node, m: Message)
    ensures Framed(s, RoundChangeMessage(s, m))
  {
    var t := AddMessage(s, m);
    assert t == s.(msgs := t.msgs);
  }

  lemma FramedRead(s: Node, m: Message, verdict: Verdict)
    ensures Framed(s, Next(s, Read(m, verdict)))
  {
    FramedAccept(s, m, verdict);
    FramedValidate(s, m);
    FramedRoundChange(s, m);
  }

  lemma HeadStep(s: Node, ev: Event)
    ensures Next(s, ev).head == s.head || Next(s, ev).head.number > s.head.number
  {
    if ev.Read? {
      FramedRead(s, ev.m, ev.verdict);
    }
  }

  /** On every run the head stays, or a higher one has taken its place. */
  lemma {:induction false} HeadRises(s: Node, evs: seq<Event>)
    ensures Run(s, evs).head == s.head || Run(s, evs).head.number > s.head.number
  {
    if evs != [] {
      HeadRises(s, evs[..|evs| - 1]);
      HeadStep(Run(s, evs[..|evs| - 1]), evs[|evs| - 1]);
    }
  }

  // ----- The lock -----

  /** From s to s': the log of seals only grows, a held lock keeps its block, and a new seal is emitted
      under the lock and for the locked block. */
  ghost predicate LockKept(s: Node, s': Node) {
    && s.seals <= s'.seals
    && (s.lock.locked ==> s'.lock == s.lock)
    && (s'.seals != s.seals ==> s'.lock.locked && s'.lock.block.Some?)
    && forall i :: |s.seals| <= i < |s'.seals| ==> Some(s'.seals[i]) == s'.lock.block
  }

  lemma LockSendCommit(s: Node)
    requires s.lock.block.Some? && (s.phase.hasCommitted ==> s.lock.locked)
    ensures LockKept(s, SendCommit(s)) && SendCommit(s).lock == Lock(s.lock.block, true)
    ensures SendCommit(s).phase == s.phase.(hasCommitted := true) && SendCommit(s).head == s.head
  {
  }

  lemma LockKeptTwice(s: Node, t: Node, u: Node)
    requires LockKept(s, t) && LockKept(t, u) && t.lock.block == s.lock.block && u.lock.block == t.lock.block
    ensures LockKept(s, u)
  {
  }

  lemma LockValidateMessage(s: Node, m: Message)
    requires Inv(s) && s.phase.state == ValidateState
    ensures LockKept(s, ValidateMessage(s, m))
    ensures ValidateMessage(s, m).lock.block == s.lock.block && ValidateMessage(s, m).head == s.head
    ensures ValidateMessage(s, m).phase.state != AcceptState
  {
    var t := AddMessage(s, m);
    assert t == s.(msgs := t.msgs);
    LockSendCommit(t);
    var u := if |t.msgs.prepared| > t.NumValid() then SendCommit(t) else t;
    LockSendCommit(u);
    LockKeptTwice(s, u, if |t.msgs.committed| > t.NumValid() then SendCommit(u) else u);
  }

  lemma LockStep(s: Node, ev: Event)
    requires Inv(s) && !ev.Insert?
    ensures LockKept(s, Next(s, ev))
  {
    if ev.Read? && Readable(s, ev.m) && s.phase.state == ValidateState {
      LockValidateMessage(s, ev.m);
    }
  }

  /** Lock discipline: as long as the node does not unlock (it does so only when it inserts), every seal
      it emits is for one and the same block, the one it ends up locked on. */
  lemma {:induction false} LockDiscipline(s: Node, evs: seq<Event>)
    requires Inv(s) && forall i :: 0 <= i < |evs| ==> !evs[i].Insert?
    ensures LockKept(s, Run(s, evs))
  {
    if evs != [] {
      var prefix := evs[..|evs| - 1];
      LockDiscipline(s, prefix);
      InvRun(s, prefix);
      LockStep(Run(s, prefix), evs[|evs| - 1]);
    }
  }

  // ----- One seal per height -----

  /** What surrounds a node. The seed that each parent header gives for the proposer draw, if all nodes have the
      same; the headers whose blocks the chain can take, if that decides whether a write fails; and two things
      the code does not rule out. */
  datatype Policy = Policy(seed: Option<Header -> nat>, valid: Option<Header -> bool>,
                           writeMayFail: bool, heightUnchecked: bool)
  {
    function Draw(parent: Header): nat {
      if seed.Some? then seed.value(parent) else 0
    }

    predicate Valid(h: Header) {
      valid.Some? ==> valid.value(h)
    }
  }

  predicate Strict(policy: Policy) {
    !policy.writeMayFail && !policy.heightUnchecked
  }

  /** insertBlock puts the seals of all tallied commit messages into the header, and WriteBlock takes the block if
      it is valid and each of them covers its header. */
  predicate Writable(policy: Policy, block: Header, committed: Tally) {
    policy.Valid(block) && forall a :: a in committed ==> committed[a].proposal == Some(block)
  }

  /** The block that a node in CommitState is about to insert. */
  predicate CanWrite(policy: Policy, s: Node) {
    s.lock.block.Some? && Writable(policy, s.lock.block.value, s.msgs.committed)
  }

  /** Timeouts come only when no message is due. A node that validates has queued its own prepare or commit
      message on its way there, and its own commit message when it sealed, so it has counted them before. */
  predicate TimeoutAllowed(s: Node) {
    s.phase.state == ValidateState ==>
      && (s.me in s.msgs.prepared || s.me in s.msgs.committed)
      && (s.phase.hasCommitted ==> s.me in s.msgs.committed)
  }

  predicate EnterAllowed(policy: Policy, head: Header, seed: nat, built: Option<nat>) {
    && (policy.seed.Some? ==> seed == policy.Draw(head))
    && (built.Some? ==> policy.Valid(Header(head.number + 1, built.value)))
  }

  predicate InsertAllowed(policy: Policy, s: Node, outcome: InsertOutcome) {
    && (outcome == WriteFailed ==> policy.writeMayFail)
    && (policy.valid.Some? && s.phase.state == CommitState ==> (outcome == WriteFailed <==> !CanWrite(policy, s)))
  }

  predicate Allowed(policy: Policy, s: Node, ev: Event) {
    match ev
    case EnterAccept(_, seed, built) => EnterAllowed(policy, s.head, seed, built)
    case Timeout(_) => TimeoutAllowed(s)
    case Insert(outcome) => InsertAllowed(policy, s, outcome)
    case Read(m, verdict) =>
      verdict == Verified && m.proposal.Some? && s.phase.state == AcceptState && !s.lock.locked ==>
        policy.heightUnchecked || m.proposal.value.number == s.view.sequence
    case _ => true
  }

  ghost predicate AllAllowed(policy: Policy, s: Node, evs: seq<Event>) {
    evs != [] ==>
      var prefix := evs[..|evs| - 1];
      AllAllowed(policy, s, prefix) && Allowed(policy, Run(s, prefix), evs[|evs| - 1])
  }

  lemma Extend(policy: Policy, s: Node, evs: seq<Event>, ev: Event)
    ensures Run(s, evs + [ev]) == Next(Run(s, evs), ev)
    ensures AllAllowed(policy, s, evs) && Allowed(policy, Run(s, evs), ev) ==> AllAllowed(policy, s, evs + [ev])
  {
    assert (evs + [ev])[..|evs|] == evs;
  }

  lemma {:induction false} Join(policy: Policy, s: Node, evs: seq<Event>, more: seq<Event>)
    ensures Run(s, evs + more) == Run(Run(s, evs), more)
    ensures AllAllowed(policy, s, evs) && AllAllowed(policy, Run(s, evs), more) ==> AllAllowed(policy, s, evs + more)
  {
    if more == [] {
      assert evs + more == evs;
    } else {
      var n := |more| - 1;
      Join(policy, s, evs, more[..n]);
      Extend(policy, s, evs + more[..n], more[n]);
      assert evs + more[..n] + [more[n]] == evs + more;
    }
  }

  ghost predicate OneSealPerHeight(s: Node) {
    forall x, y :: x in s.seals && y in s.seals && x.number == y.number ==> x == y
  }

  ghost predicate SealInv(s: Node) {
    && Inv(s) && OneSealPerHeight(s)
    && (forall x :: x in s.seals ==> x.number <= s.head.number || (s.lock.locked && Some(x) == s.lock.block))
    && (s.lock.block.Some? ==>
          forall x :: x in s.seals ==> Some(x) == s.lock.block || x.number < s.lock.block.value.number)
    && (s.phase.state == AcceptState && s.phase.entered && !s.lock.locked ==>
          forall x :: x in s.seals ==> x.number < s.view.sequence)
  }

  lemma SealInvEmit(s: Node, s': Node)
    requires SealInv(s) && Inv(s') && LockKept(s, s') && s'.lock.block == s.lock.block && s'.head == s.head
    requires s'.phase.state != AcceptState
    ensures SealInv(s')
  {
    forall x | x in s'.seals ensures x in s.seals || (Some(x) == s.lock.block && s'.lock.locked) {
      var i :| 0 <= i < |s'.seals| && s'.seals[i] == x;
      assert i < |s.seals| ==> s.seals[i] == x;
    }
  }

  /** Steps that neither seal nor touch the lock. */
  lemma SealInvQuiet(s: Node, s': Node)
    requires SealInv(s) && Inv(s') && s'.seals == s.seals && s'.lock == s.lock && s'.head.number >= s.head.number
    requires s'.phase.state == AcceptState && s'.phase.entered ==>
               (s.phase == s'.phase && s'.view == s.view) || s'.view.sequence == s.head.number + 1
    ensures SealInv(s')
  {
  }

  /** A new block, above every height sealed so far, or none. */
  lemma SealInvNewBlock(s: Node, s': Node)
    requires SealInv(s) && Inv(s') && s'.seals == s.seals && !s.lock.locked && !s'.lock.locked && s'.head == s.head
    requires s'.phase.state != AcceptState
    requires s'.lock.block.Some? ==> forall x :: x in s.seals ==> x.number < s'.lock.block.value.number
    ensures SealInv(s')
  {
  }

  lemma SealInvBeginAccept(s: Node, found: bool, seed: nat, built: Option<nat>)
    requires SealInv(s) && s.phase.state == AcceptState && !s.phase.entered
    ensures SealInv(BeginAccept(s, found, seed, built))
  {
    var s' := BeginAccept(s, found, seed, built);
    InvBeginAccept(s, found, seed, built);
    if s'.lock == s.lock {
      SealInvQuiet(s, s');
    } else {
      SealInvNewBlock(s, s');
    }
  }

  lemma SealInvAcceptMessage(policy: Policy, s: Node, m: Message, verdict: Verdict)
    requires SealInv(s) && s.phase.state == AcceptState && s.phase.entered && Strict(policy)
    requires Allowed(policy, s, Read(m, verdict))
    ensures SealInv(AcceptMessage(s, m, verdict))
  {
    var s' := AcceptMessage(s, m, verdict);
    InvAcceptMessage(s, m, verdict);
    if s'.seals != s.seals {
      SealInvEmit(s, s');
    } else if s'.lock == s.lock {
      SealInvQuiet(s, s');
    } else {
      SealInvNewBlock(s, s');
    }
  }

  lemma SealInvValidateMessage(s: Node, m: Message)
    requires SealInv(s) && s.phase.state == ValidateState && Readable(s, m)
    ensures SealInv(ValidateMessage(s, m))
  {
    InvValidateMessage(s, m);
    LockValidateMessage(s, m);
    SealInvEmit(s, ValidateMessage(s, m));
  }

  lemma SealInvInsertBlock(s: Node, outcome: InsertOutcome)
    requires SealInv(s) && s.phase.state == CommitState && outcome != WriteFailed
    ensures SealInv(InsertBlock(s, outcome))
  {
    InvInsertBlock(s, outcome);
  }

  lemma SealInvRead(policy: Policy, s: Node, m: Message, verdict: Verdict)
    requires SealInv(s) && Strict(policy) && Allowed(policy, s, Read(m, verdict))
    ensures SealInv(Next(s, Read(m, verdict)))
  {
    if Readable(s, m) {
      if s.phase.state == AcceptState && s.phase.entered {
        SealInvAcceptMessage(policy, s, m, verdict);
      } else if s.phase.state == ValidateState {
        SealInvValidateMessage(s, m);
      } else {
        InvStep(s, Read(m, verdict));
        SealInvQuiet(s, Next(s, Read(m, verdict)));
      }
    }
  }

  lemma SealInvQuietEvent(s: Node, ev: Event)
    requires SealInv(s) && (ev.EnterRoundChange? || ev.Timeout? || ev.HeadMoves? || ev.Sync?)
    ensures SealInv(Next(s, ev))
  {
    InvStep(s, ev);
    SealInvQuiet(s, Next(s, ev));
  }

  lemma SealInvStep(policy: Policy, s: Node, ev: Event)
    requires SealInv(s) && Strict(policy) && Allowed(policy, s, ev)
    ensures SealInv(Next(s, ev))
  {
    match ev
    case EnterAccept(found, seed, built) =>
      if s.phase.state == AcceptState && !s.phase.entered {
        SealInvBeginAccept(s, found, seed, built);
      }
    case Insert(outcome) =>
      if s.phase.state == CommitState {
        SealInvInsertBlock(s, outcome);
      }
    case Read(m, verdict) => SealInvRead(policy, s, m, verdict);
    case _ => SealInvQuietEvent(s, ev);
  }

  lemma {:induction false} SealInvRun(policy: Policy, s: Node, evs: seq<Event>)
    requires SealInv(s) && Strict(policy) && AllAllowed(policy, s, evs)
    ensures SealInv(Run(s, evs))
  {
    if evs != [] {
      var prefix := evs[..|evs| - 1];
      SealInvRun(policy, s, prefix);
      SealInvStep(policy, Run(s, prefix), evs[|evs| - 1]);
    }
  }

  // ----- Reachable nodes, and when the seals of a node are unambiguous -----

  ghost predicate Reachable(policy: Policy, s: Node) {
    exists vset, me, head, evs :: RunsTo(policy, vset, me, head, evs, s)
  }

  ghost predicate RunsTo(policy: Policy, vset: seq<Address>, me: Address, head: Header, evs: seq<Event>, s: Node) {
    AllAllowed(policy, InitialNode(vset, me, head), evs) && s == Run(InitialNode(vset, me, head), evs)
  }

  lemma ReachableInitial(policy: Policy, vset: seq<Address>, me: Address, head: Header)
    ensures Reachable(policy, InitialNode(vset, me, head)) && Inv(InitialNode(vset, me, head))
  {
    assert RunsTo(policy, vset, me, head, [], InitialNode(vset, me, head));
  }

  lemma ReachableStep(policy: Policy, s: Node, ev: Event)
    requires Reachable(policy, s) && Allowed(policy, s, ev)
    ensures Reachable(policy, Next(s, ev))
  {
    var vset, me, head, evs :| RunsTo(policy, vset, me, head, evs, s);
    Extend(policy, InitialNode(vset, me, head), evs, ev);
    assert RunsTo(policy, vset, me, head, evs + [ev], Next(s, ev));
  }

  lemma {:induction false} ReachableRun(policy: Policy, s: Node, evs: seq<Event>)
    requires Reachable(policy, s) && AllAllowed(policy, s, evs)
    ensures Reachable(policy, Run(s, evs))
  {
    if evs != [] {
      ReachableRun(policy, s, evs[..|evs| - 1]);
      ReachableStep(policy, Run(s, evs[..|evs| - 1]), evs[|evs| - 1]);
    }
  }

  lemma ReachableInv(policy: Policy, s: Node)
    requires Reachable(policy, s)
    ensures Inv(s)
  {
    var vset, me, head, evs :| RunsTo(policy, vset, me, head, evs, s);
    InitialInv(vset, me, head);
    InvRun(InitialNode(vset, me, head), evs);
  }

  /** On every run in which blocks are written without failure and accepted at the height of the view,
      a node seals at most one header of each height. */
  lemma ReachableSealsOnce(policy: Policy, s: Node)
    requires Strict(policy) && Reachable(policy, s)
    ensures OneSealPerHeight(s)
  {
    var vset, me, head, evs :| RunsTo(policy, vset, me, head, evs, s);
    SealInvRun(policy, InitialNode(vset, me, head), evs);
  }
}
