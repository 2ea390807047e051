/** Runs of a PVBFT node that its code allows: how it comes to seal a header, and the runs on which the
    properties of module Pvbft need their hypotheses. */
module Runs {
  import opened Types
  import opened MsgQueues
  import opened Quorum
  import opened Pvbft

  // ----- Stretches of a run -----

  /** The events need no other messages than these, and no block from a peer. */
  ghost predicate Uses(evs: seq<Event>, ms: set<Message>) {
    forall ev :: ev in evs ==> !ev.HeadMoves? && (ev.Read? ==> ev.m in ms)
  }

  /** The proposer that the node draws at its head. */
  function ProposerOf(policy: Policy, s: Node): Address
    requires s.vset != []
  {
    CalcProposer(s.vset, policy.Draw(s.head))
  }

  lemma One(policy: Policy, s: Node, ev: Event)
    requires Allowed(policy, s, ev)
    ensures AllAllowed(policy, s, [ev]) && Run(s, [ev]) == Next(s, ev)
  {
    Extend(policy, s, [], ev);
  }

  lemma Two(policy: Policy, s: Node, ev: Event, ev': Event)
    requires Allowed(policy, s, ev) && Allowed(policy, Next(s, ev), ev')
    ensures AllAllowed(policy, s, [ev, ev']) && Run(s, [ev, ev']) == Next(Next(s, ev), ev')
  {
    One(policy, s, ev);
    Extend(policy, s, [ev], ev');
    assert [ev] + [ev'] == [ev, ev'];
  }

  // ----- To the proposal -----

  function Started(s: Node): Node {
    s.(phase := Phase(AcceptState, false, false), view := View(s.head.number + 1, 0))
  }

  lemma CanStart(policy: Policy, s: Node) returns (evs: seq<Event>)
    requires s.phase.state == SyncState && s.me in s.vset
    ensures AllAllowed(policy, s, evs) && Run(s, evs) == Started(s) && Uses(evs, {})
  {
    evs := [Sync(true)];
    One(policy, s, Sync(true));
  }

  /** A validator without a lock that is about to enter the accept state of the next height. */
  ghost predicate Entering(s: Node) {
    && s.phase == Phase(AcceptState, false, false) && s.view.sequence == s.head.number + 1 && s.me in s.vset
    && s.lock == Lock(None, false)
  }

  /** The message that proposes h in the node's view. */
  function ProposalAt(policy: Policy, s: Node, h: Header): Message
    requires s.vset != []
  {
    Message(ProposerOf(policy, s), Preprepare, s.view, Some(h))
  }

  /** A node that has taken h as the proposal of its view. */
  function Accepted(policy: Policy, s: Node, h: Header): Node
    requires s.vset != []
  {
    s.(phase := Phase(ValidateState, false, false), lock := Lock(Some(h), false), proposer := ProposerOf(policy, s),
       msgs := NO_MSGS, sent := s.sent + {Message(s.me, Prepare, s.view, None)})
  }

  function Waiting(policy: Policy, s: Node): Node
    requires s.vset != []
  {
    s.(phase := Phase(AcceptState, true, false), proposer := ProposerOf(policy, s), msgs := NO_MSGS)
  }

  lemma CanWait(policy: Policy, s: Node) returns (ev: Event)
    requires s.phase == Phase(AcceptState, false, false) && s.view.sequence == s.head.number + 1 && s.me in s.vset
    requires ProposerOf(policy, s) != s.me
    ensures Allowed(policy, s, ev) && Next(s, ev) == Waiting(policy, s) && ev.EnterAccept?
  {
    ev := EnterAccept(true, policy.Draw(s.head), None);
  }

  /** It takes a proposal of the height of its view, and of any height if heights are not compared. */
  lemma CanTake(policy: Policy, s: Node, h: Header) returns (evs: seq<Event>)
    requires Entering(s) && ProposerOf(policy, s) != s.me
    requires h.number == s.view.sequence || policy.heightUnchecked
    ensures AllAllowed(policy, s, evs) && Run(s, evs) == Accepted(policy, s, h) && Uses(evs, {ProposalAt(policy, s, h)})
  {
    var enter := CanWait(policy, s);
    var read := Read(ProposalAt(policy, s, h), Verified);
    assert Next(Waiting(policy, s), read) == Accepted(policy, s, h);
    Two(policy, s, enter, read);
    evs := [enter, read];
  }

  /** A node that has built h and proposed it in its view. */
  function Proposing(policy: Policy, s: Node, h: Header): Node
    requires s.vset != []
  {
    var t := Accepted(policy, s, h);
    t.(sent := t.sent + {ProposalAt(policy, s, h)})
  }

  /** The validator drawn for the next height proposes a block of its own. */
  lemma CanPropose(policy: Policy, s: Node, digest: nat) returns (evs: seq<Event>)
    requires Entering(s) && ProposerOf(policy, s) == s.me && policy.Valid(Header(s.head.number + 1, digest))
    ensures AllAllowed(policy, s, evs) && Uses(evs, {})
    ensures Run(s, evs) == Proposing(policy, s, Header(s.head.number + 1, digest))
  {
    var enter := EnterAccept(true, policy.Draw(s.head), Some(digest));
    One(policy, s, enter);
    evs := [enter];
    assert Run(s, evs).sent == Proposing(policy, s, Header(s.head.number + 1, digest)).sent;
  }

  // ----- Votes -----

  /** A vote of each sender; the bad ones send no seal of theirs. */
  function VoteOf(typ: MsgType, view: View, proposal: Option<Header>, bad: set<Address>, a: Address): Message {
    Message(a, typ, view, if a in bad then None else proposal)
  }

  function Votes(typ: MsgType, view: View, proposal: Option<Header>, bad: set<Address>,
                 senders: seq<Address>): set<Message>
  {
    set a | a in senders :: VoteOf(typ, view, proposal, bad, a)
  }

  /** One more than 2F different validators. */
  ghost predicate Enough(s: Node, senders: seq<Address>) {
    Distinct(senders) && |senders| == s.NumValid() + 1 && forall a :: a in senders ==> a in s.vset
  }

  /** A node that has accepted a block and counted prepare messages of the given validators. */
  ghost predicate Preparing(s: Node, senders: seq<Address>, k: nat) {
    && s.phase == Phase(ValidateState, false, false) && s.lock.block.Some? && Enough(s, senders)
    && k < |senders| && s.msgs.prepared.Keys == Elements(senders[..k]) && s.msgs.committed == map[]
  }

  function Vote(s: Node, from: Address, typ: MsgType): Event {
    Read(Message(from, typ, s.view, None), Verified)
  }

  lemma TallyGrows(t: Tally, senders: seq<Address>, k: nat, m: Message)
    requires Distinct(senders) && k < |senders| && t.Keys == Elements(senders[..k])
    ensures var t' := t[senders[k] := m];
            t'.Keys == Elements(senders[..k + 1]) && |t'| == k + 1
  {
    var t' := t[senders[k] := m];
    assert senders[..k + 1] == senders[..k] + [senders[k]];
    assert t'.Keys == Elements(senders[..k + 1]);
    DistinctCardinality(senders[..k + 1]);
    assert |t'| == |t'.Keys|;
  }

  lemma OnePrepare(s: Node, senders: seq<Address>, k: nat)
    requires Preparing(s, senders, k)
    ensures var m := Message(senders[k], Prepare, s.view, None);
            var added := s.(msgs := s.msgs.(prepared := s.msgs.prepared[m.from := m]));
            Next(s, Vote(s, senders[k], Prepare)) ==
              if k + 1 < |senders| then added
              else EmitSeal(added.(lock := Lock(s.lock.block, true))).(phase := Phase(ValidateState, false, true))
  {
    var m := Message(senders[k], Prepare, s.view, None);
    TallyGrows(s.msgs.prepared, senders, k, m);
    assert AddMessage(s, m) == s.(msgs := s.msgs.(prepared := s.msgs.prepared[m.from := m]));
  }

  /** The node that the prepare messages lead to: it has locked and sealed its block. */
  function Sealed(s: Node, msgs: RoundMsgs): Node
    requires s.lock.block.Some?
  {
    s.(phase := Phase(ValidateState, false, true), lock := Lock(s.lock.block, true), msgs := msgs,
       seals := s.seals + [s.lock.block.value], sent := s.sent + {Message(s.me, Commit, s.view, s.lock.block)})
  }

  lemma PreparedMore(s: Node, senders: seq<Address>, k: nat)
    requires Preparing(s, senders, k)
    ensures var t := Next(s, Vote(s, senders[k], Prepare));
            && t.msgs.committed == map[] && t.msgs.rounds == s.msgs.rounds
            && if k + 1 == |senders| then t == Sealed(s, t.msgs)
               else Preparing(t, senders, k + 1) && t == s.(msgs := t.msgs)
  {
    OnePrepare(s, senders, k);
    TallyGrows(s.msgs.prepared, senders, k, Message(senders[k], Prepare, s.view, None));
  }

  /** Prepare messages of one more than 2F validators make it seal. */
  lemma {:induction false} CanPrepare(policy: Policy, s: Node, senders: seq<Address>, k: nat) returns (evs: seq<Event>)
    requires Preparing(s, senders, k)
    ensures AllAllowed(policy, s, evs) && Uses(evs, Votes(Prepare, s.view, None, {}, senders))
    ensures Run(s, evs) == Sealed(s, Run(s, evs).msgs)
    ensures Run(s, evs).msgs.committed == map[] && Run(s, evs).msgs.rounds == s.msgs.rounds
    decreases |senders| - k
  {
    var read := Vote(s, senders[k], Prepare);
    PreparedMore(s, senders, k);
    One(policy, s, read);
    evs := [read];
    assert VoteOf(Prepare, s.view, None, {}, senders[k]) == read.m;
    if k + 1 < |senders| {
      var more := CanPrepare(policy, Next(s, read), senders, k + 1);
      Join(policy, s, evs, more);
      evs := evs + more;
    }
  }

  /** The commit messages of these validators for h, but for the bad seals. */
  function CommitTally(view: View, h: Header, bad: set<Address>, senders: seq<Address>): Tally {
    map a | a in senders :: VoteOf(Commit, view, Some(h), bad, a)
  }

  /** A node that has sealed h and counted the commit messages of the given validators. */
  ghost predicate Collecting(s: Node, h: Header, bad: set<Address>, senders: seq<Address>, k: nat) {
    && s.phase == Phase(ValidateState, false, true) && s.lock == Lock(Some(h), true) && Enough(s, senders)
    && k < |senders| && s.msgs.committed == CommitTally(s.view, h, bad, senders[..k])
  }

  lemma CommitTallyGrows(view: View, h: Header, bad: set<Address>, senders: seq<Address>, k: nat)
    requires Distinct(senders) && k < |senders|
    ensures var m := VoteOf(Commit, view, Some(h), bad, senders[k]);
            var t := CommitTally(view, h, bad, senders[..k + 1]);
            CommitTally(view, h, bad, senders[..k])[m.from := m] == t && |t| == k + 1
  {
    var m := VoteOf(Commit, view, Some(h), bad, senders[k]);
    TallyGrows(CommitTally(view, h, bad, senders[..k]), senders, k, m);
    assert senders[..k + 1] == senders[..k] + [senders[k]];
    assert CommitTally(view, h, bad, senders[..k])[m.from := m] == CommitTally(view, h, bad, senders[..k + 1]);
  }

  lemma OneCommit(s: Node, h: Header, bad: set<Address>, senders: seq<Address>, k: nat)
    requires Collecting(s, h, bad, senders, k)
    ensures var m := VoteOf(Commit, s.view, Some(h), bad, senders[k]);
            var added := s.(msgs := s.msgs.(committed := CommitTally(s.view, h, bad, senders[..k + 1])));
            Next(s, Read(m, Verified)) ==
              if k + 1 < |senders| then added else added.(phase := Phase(CommitState, false, true))
  {
    var m := VoteOf(Commit, s.view, Some(h), bad, senders[k]);
    CommitTallyGrows(s.view, h, bad, senders, k);
    assert AddMessage(s, m) == s.(msgs := s.msgs.(committed := s.msgs.committed[m.from := m]));
  }

  /** The node that the commit messages lead to: it is about to insert h. */
  function Inserting(s: Node, h: Header, bad: set<Address>, senders: seq<Address>): Node {
    s.(phase := Phase(CommitState, false, true), msgs := s.msgs.(committed := CommitTally(s.view, h, bad, senders)))
  }

  /** Commit messages of one more than 2F validators lead it to the insertion. */
  lemma {:induction false} CanCommit(policy: Policy, s: Node, h: Header, bad: set<Address>, senders: seq<Address>,
                                     k: nat)
      returns (evs: seq<Event>)
    requires Collecting(s, h, bad, senders, k)
    ensures AllAllowed(policy, s, evs) && Uses(evs, Votes(Commit, s.view, Some(h), bad, senders))
    ensures Run(s, evs) == Inserting(s, h, bad, senders)
    decreases |senders| - k
  {
    var read := Read(VoteOf(Commit, s.view, Some(h), bad, senders[k]), Verified);
    OneCommit(s, h, bad, senders, k);
    One(policy, s, read);
    evs := [read];
    if k + 1 < |senders| {
      var more := CanCommit(policy, Next(s, read), h, bad, senders, k + 1);
      Join(policy, s, evs, more);
      evs := evs + more;
    } else {
      assert senders[..k + 1] == senders;
    }
  }

  // ----- After the insertion -----

  /** A node whose write has failed asks for the next round, without a lock. */
  function GivenUp(s: Node): Node {
    var view := View(s.view.sequence, s.view.round + 1);
    s.(phase := Phase(RoundChangeState, true, false), lock := Lock(None, false), view := view, failed := false,
       msgs := s.msgs.(rounds := s.msgs.rounds - {view.round}),
       sent := s.sent + {Message(s.me, RoundChange, view, None)})
  }

  lemma CanFail(policy: Policy, s: Node) returns (evs: seq<Event>)
    requires s.phase.state == CommitState && policy.writeMayFail && (policy.valid.Some? ==> !CanWrite(policy, s))
    ensures AllAllowed(policy, s, evs) && Uses(evs, {}) && Run(s, evs) == GivenUp(s)
  {
    evs := [Insert(WriteFailed), EnterRoundChange(false)];
    Two(policy, s, Insert(WriteFailed), EnterRoundChange(false));
  }

  /** A node whose write has succeeded goes on to the next height. */
  function Grown(s: Node, h: Header): Node {
    s.(phase := Phase(AcceptState, false, false), lock := Lock(None, false), head := h, view := View(h.number + 1, 0))
  }

  lemma CanGrow(policy: Policy, s: Node) returns (evs: seq<Event>)
    requires s.phase.state == CommitState && CanWrite(policy, s) && s.lock.block.value.number > s.head.number
    ensures AllAllowed(policy, s, evs) && Uses(evs, {}) && Run(s, evs) == Grown(s, s.lock.block.value)
  {
    evs := [Insert(Inserted)];
    One(policy, s, Insert(Inserted));
  }

  function RoundTally(s: Node): Tally {
    if s.view.round in s.msgs.rounds then s.msgs.rounds[s.view.round] else map[]
  }

  /** A node that has asked for the round of its view and counted what others ask for. */
  ghost predicate Asking(s: Node, senders: seq<Address>, k: nat) {
    && s.phase == Phase(RoundChangeState, true, false) && Distinct(senders) && |senders| == s.NumValid()
    && (forall a :: a in senders ==> a in s.vset) && k < |senders| && RoundTally(s).Keys == Elements(senders[..k])
  }

  lemma OneAsk(s: Node, senders: seq<Address>, k: nat)
    requires Asking(s, senders, k)
    ensures var t := Next(s, Vote(s, senders[k], RoundChange));
            if k + 1 < |senders| then Asking(t, senders, k + 1) && t == s.(msgs := t.msgs)
            else t == s.(phase := Phase(AcceptState, false, false), msgs := t.msgs)
  {
    var m := Message(senders[k], RoundChange, s.view, None);
    TallyGrows(RoundTally(s), senders, k, m);
    var t := AddMessage(s, m);
    assert t == s.(msgs := t.msgs) && RoundTally(t) == RoundTally(s)[m.from := m];
  }

  /** Round change messages of 2F validators lead it to the next round. */
  lemma {:induction false} CanChangeRound(policy: Policy, s: Node, senders: seq<Address>, k: nat)
      returns (evs: seq<Event>)
    requires Asking(s, senders, k)
    ensures AllAllowed(policy, s, evs) && Uses(evs, Votes(RoundChange, s.view, None, {}, senders))
    ensures Run(s, evs) == s.(phase := Phase(AcceptState, false, false), msgs := Run(s, evs).msgs)
    decreases |senders| - k
  {
    var read := Vote(s, senders[k], RoundChange);
    OneAsk(s, senders, k);
    One(policy, s, read);
    evs := [read];
    assert VoteOf(RoundChange, s.view, None, {}, senders[k]) == read.m;
    if k + 1 < |senders| {
      var more := CanChangeRound(policy, Next(s, read), senders, k + 1);
      Join(policy, s, evs, more);
      evs := evs + more;
    }
  }

  // ----- The hypotheses of one seal per height are needed -----

  const FOUR: seq<Address> := [0, 1, 2, 3]

  const THREE: seq<Address> := [0, 1, 2]

  const GENESIS := Header(0, 0)

  lemma ThreeOfFour()
    ensures Distinct(THREE) && |THREE| == 2 * MaxFaultyNodes(|FOUR|) + 1 && 0 in THREE
    ensures forall a :: a in THREE ==> a in FOUR
  {
    assert FOUR[0] == 0 && FOUR[1] == 1 && FOUR[2] == 2;
    assert THREE[0] == 0;
  }

  /** The seals of commit messages for h go into its header. */
  lemma TallyWritable(policy: Policy, view: View, h: Header, senders: seq<Address>)
    requires policy.Valid(h)
    ensures Writable(policy, h, CommitTally(view, h, {}, senders))
  {
  }

  /** The block of that digest can be put on it. */
  predicate Buildable(policy: Policy, digest: nat) {
    policy.Valid(Header(1, digest))
  }

  /** One of four validators that is neither of the two proposers. */
  function Other(p: Address, q: Address): (a: Address)
    ensures a in FOUR && a != p && a != q
  {
    assert FOUR[0] == 0 && FOUR[1] == 1 && FOUR[2] == 2;
    if p != 0 && q != 0 then 0 else if p != 1 && q != 1 then 1 else 2
  }

  /** It takes h and seals it. */
  lemma CanSeal(policy: Policy, s: Node, h: Header, senders: seq<Address>) returns (t: Node)
    requires Reachable(policy, s) && Entering(s) && ProposerOf(policy, s) != s.me && Enough(s, senders)
    requires h.number == s.view.sequence || policy.heightUnchecked
    ensures Reachable(policy, t) && t.msgs.committed == map[] && t.msgs.rounds == map[]
    ensures t == Sealed(Accepted(policy, s, h), t.msgs)
  {
    var evs := CanTake(policy, s, h);
    ReachableRun(policy, s, evs);
    t := Run(s, evs);
    evs := CanPrepare(policy, t, senders, 0);
    ReachableRun(policy, t, evs);
    t := Run(t, evs);
  }

  /** It seals h and comes to insert it. */
  lemma CanInsert(policy: Policy, s: Node, h: Header, bad: set<Address>, senders: seq<Address>) returns (t: Node)
    requires Reachable(policy, s) && Entering(s) && ProposerOf(policy, s) != s.me && Enough(s, senders)
    requires h.number == s.view.sequence || policy.heightUnchecked
    ensures Reachable(policy, t) && t.phase.state == CommitState && t.lock.block == Some(h) && t.seals == s.seals + [h]
    ensures t.msgs.committed == CommitTally(s.view, h, bad, senders) && t.msgs.rounds == map[]
    ensures t.vset == s.vset && t.me == s.me && t.head == s.head && t.view == s.view
  {
    t := CanSeal(policy, s, h, senders);
    assert CommitTally(s.view, h, bad, senders[..0]) == map[];
    var evs := CanCommit(policy, t, h, bad, senders, 0);
    ReachableRun(policy, t, evs);
    t := Run(t, evs);
  }

  lemma CanBegin(policy: Policy, me: Address) returns (s: Node)
    requires me in FOUR
    ensures Reachable(policy, s) && s == Started(InitialNode(FOUR, me, GENESIS))
  {
    var s0 := InitialNode(FOUR, me, GENESIS);
    ReachableInitial(policy, FOUR, me, GENESIS);
    var evs := CanStart(policy, s0);
    ReachableRun(policy, s0, evs);
    s := Run(s0, evs);
  }

  /** Its write fails, and it goes on to the next round of the same height. */
  lemma CanRetry(policy: Policy, s: Node, senders: seq<Address>) returns (t: Node)
    requires Reachable(policy, s) && s.phase.state == CommitState && policy.writeMayFail
    requires !CanWrite(policy, s) && s.msgs.rounds == map[] && s.view.sequence == s.head.number + 1 && s.me in s.vset
    requires Distinct(senders) && |senders| == s.NumValid() > 0 && forall a :: a in senders ==> a in s.vset
    ensures Reachable(policy, t) && Entering(t) && t.view == View(s.view.sequence, s.view.round + 1)
    ensures t.vset == s.vset && t.me == s.me && t.head == s.head && t.seals == s.seals
  {
    var evs := CanFail(policy, s);
    ReachableRun(policy, s, evs);
    t := Run(s, evs);
    evs := CanChangeRound(policy, t, senders, 0);
    ReachableRun(policy, t, evs);
    t := Run(t, evs);
  }

  lemma TwoSeals(s: Node, h: Header, h': Header)
    requires s.seals == [h, h'] && h.number == h'.number && h != h'
    ensures !OneSealPerHeight(s)
  {
    assert s.seals[0] in s.seals && s.seals[1] in s.seals;
  }

  lemma BadSeal(policy: Policy, view: View, h: Header, bad: set<Address>, senders: seq<Address>, a: Address)
    requires a in senders && a in bad
    ensures !Writable(policy, h, CommitTally(view, h, bad, senders))
  {
    assert a in CommitTally(view, h, bad, senders) && CommitTally(view, h, bad, senders)[a].proposal == None;
  }

  /** The seal of the first sender is bad, so the write fails, and in the next round the node seals again. */
  lemma CanSealAgain(policy: Policy, s: Node, h: Header, h': Header, senders: seq<Address>) returns (t: Node)
    requires Reachable(policy, s) && Entering(s) && ProposerOf(policy, s) != s.me && Enough(s, senders)
    requires s.NumValid() > 0
    requires h.number == h'.number == s.view.sequence && policy.writeMayFail
    ensures Reachable(policy, t) && t.vset == s.vset && t.me == s.me && t.seals == s.seals + [h] + [h']
  {
    t := CanInsert(policy, s, h, {senders[0]}, senders);
    BadSeal(policy, s.view, h, {senders[0]}, senders, senders[0]);
    t := CanRetry(policy, t, senders[1..]);
    t := CanSeal(policy, t, h', senders);
  }

  /** After a failed write, here because of a seal that does not cover the header, the node is unlocked at the same
      height and can seal a second header of it in the next round. */
  lemma FailedWriteSealsTwice(policy: Policy) returns (s: Node)
    requires policy.writeMayFail
    ensures Reachable(policy, s) && s.vset == FOUR && s.me in s.vset && !OneSealPerHeight(s)
  {
    var h, h' := Header(1, 100), Header(1, 200);
    ThreeOfFour();
    s := CanBegin(policy, Other(CalcProposer(FOUR, policy.Draw(GENESIS)), 0));
    s := CanSealAgain(policy, s, h, h', THREE);
    TwoSeals(s, h, h');
  }

  /** The write succeeds, and at the next height the node takes a header of any height. */
  lemma CanSealLater(policy: Policy, s: Node, h: Header, h': Header, senders: seq<Address>) returns (t: Node)
    requires Reachable(policy, s) && Entering(s) && ProposerOf(policy, s) != s.me && Enough(s, senders)
    requires h.number == s.view.sequence && policy.Valid(h) && policy.heightUnchecked
    requires CalcProposer(s.vset, policy.Draw(h)) != s.me
    ensures Reachable(policy, t) && t.vset == s.vset && t.me == s.me && t.seals == s.seals + [h] + [h']
  {
    t := CanInsert(policy, s, h, {}, senders);
    TallyWritable(policy, s.view, h, senders);
    var evs := CanGrow(policy, t);
    ReachableRun(policy, t, evs);
    t := Run(t, evs);
    t := CanSeal(policy, t, h', senders);
  }

  /** Without the height check the node can seal, at a later height, a second header of an earlier one. */
  lemma UncheckedHeightSealsTwice(policy: Policy, digest: nat) returns (s: Node)
    requires policy.heightUnchecked && Buildable(policy, digest)
    ensures Reachable(policy, s) && s.vset == FOUR && s.me in s.vset && !OneSealPerHeight(s)
  {
    var h, h' := Header(1, digest), Header(1, digest + 1);
    ThreeOfFour();
    s := CanBegin(policy, Other(CalcProposer(FOUR, policy.Draw(GENESIS)), CalcProposer(FOUR, policy.Draw(h))));
    s := CanSealLater(policy, s, h, h', THREE);
    TwoSeals(s, h, h');
  }

  /** The exact condition for one seal per height on every run, whatever the proposer draw. */
  lemma SealsOnceExactly(policy: Policy)
    requires exists digest :: Buildable(policy, digest)
    ensures (forall s :: Reachable(policy, s) ==> OneSealPerHeight(s)) <==> Strict(policy)
  {
    if Strict(policy) {
      forall s | Reachable(policy, s) ensures OneSealPerHeight(s) {
        ReachableSealsOnce(policy, s);
      }
    } else if policy.writeMayFail {
      var s := FailedWriteSealsTwice(policy);
    } else {
      var digest :| Buildable(policy, digest);
      var s := UncheckedHeightSealsTwice(policy, digest);
    }
  }

  // ----- The exception of RoundNeverDecreases happens -----

  /** A timeout while a peer is ahead. */
  lemma GivesWay(s: Node)
    requires s.phase.state == ValidateState && !s.failed && s.msgs.rounds == map[]
    ensures Next(Next(s, Timeout(false)), EnterRoundChange(true)) == Goto(s, SyncState)
  {
    assert forall k: nat :: !WeakRound(s.msgs.rounds, |s.vset|, k);
  }

  /** A node that has counted its own commit message gives way to a peer and learns a block from it. */
  lemma CanFallBehind(policy: Policy, s: Node, h: Header) returns (t: Node)
    requires Reachable(policy, s) && s.phase.state == ValidateState && !s.failed && s.msgs.rounds == map[]
    requires s.me in s.vset && s.me in s.msgs.committed && h.number > s.head.number
    ensures Reachable(policy, t)
    ensures t == Goto(s, AcceptState).(head := h, view := View(h.number + 1, 0))
  {
    GivesWay(s);
    ReachableStep(policy, s, Timeout(false));
    t := Next(s, Timeout(false));
    ReachableStep(policy, t, EnterRoundChange(true));
    t := Next(t, EnterRoundChange(true));
    ReachableStep(policy, t, HeadMoves(h));
    t := Next(t, HeadMoves(h));
    ReachableStep(policy, t, Sync(true));
    t := Next(t, Sync(true));
  }

  /** One commit message is too few where a validator may be faulty. */
  lemma CanCountOwn(policy: Policy, s: Node) returns (t: Node)
    requires Reachable(policy, s) && s.phase == Phase(ValidateState, false, true) && s.lock.locked
    requires s.msgs.committed == map[] && s.me in s.vset && s.NumValid() > 0
    ensures Reachable(policy, t) && t == s.(msgs := t.msgs) && s.me in t.msgs.committed
    ensures t.msgs.rounds == s.msgs.rounds
  {
    var own := Vote(s, s.me, Commit);
    ReachableStep(policy, s, own);
    assert AddMessage(s, own.m) == s.(msgs := s.msgs.(committed := map[s.me := own.m]));
    t := Next(s, own);
  }

  /** It is locked on h, keeps the lock while the chain moves past it, and is at the next height. */
  lemma StaleLock(policy: Policy, me: Address, h: Header) returns (s: Node)
    requires me in FOUR && h.number == 1 && CalcProposer(FOUR, policy.Draw(GENESIS)) != me
    ensures Reachable(policy, s) && s.phase == Phase(AcceptState, false, false) && s.view == View(2, 0)
    ensures s.vset == FOUR && s.me == me && s.head == h && s.lock == Lock(Some(h), true) && !s.failed
  {
    ThreeOfFour();
    s := CanBegin(policy, me);
    s := CanSeal(policy, s, h, THREE);
    s := CanCountOwn(policy, s);
    s := CanFallBehind(policy, s, h);
  }

  /** A node that waits in vain asks for the next round. */
  lemma AsksNext(s: Node)
    requires s.phase == Phase(AcceptState, true, false) && s.msgs == NO_MSGS && !s.failed
    ensures Next(Next(s, Timeout(false)), EnterRoundChange(false)) ==
              SendRoundChange(s.(phase := Phase(RoundChangeState, true, false)), s.view.round + 1)
  {
    assert forall k: nat :: !WeakRound(s.msgs.rounds, |s.vset|, k);
  }

  lemma CanAskNext(policy: Policy, s: Node) returns (t: Node)
    requires Reachable(policy, s) && s.phase == Phase(AcceptState, true, false) && s.msgs == NO_MSGS && !s.failed
    ensures Reachable(policy, t)
    ensures t == SendRoundChange(s.(phase := Phase(RoundChangeState, true, false)), s.view.round + 1)
  {
    AsksNext(s);
    Two(policy, s, Timeout(false), EnterRoundChange(false));
    ReachableRun(policy, s, [Timeout(false), EnterRoundChange(false)]);
    t := Run(s, [Timeout(false), EnterRoundChange(false)]);
  }

  lemma CanEnter(policy: Policy, s: Node) returns (t: Node)
    requires Reachable(policy, s) && s.phase == Phase(AcceptState, false, false) && s.view.sequence == s.head.number + 1
    requires s.me in s.vset && ProposerOf(policy, s) != s.me
    ensures Reachable(policy, t) && t == Waiting(policy, s)
  {
    var enter := CanWait(policy, s);
    ReachableStep(policy, s, enter);
    t := Next(s, enter);
  }

  /** It waits in vain, asks for the next round and gets there. */
  lemma CanMoveToRoundOne(policy: Policy, s: Node) returns (t: Node)
    requires Reachable(policy, s) && s.phase == Phase(AcceptState, false, false) && s.view.sequence == s.head.number + 1
    requires s.vset == FOUR && s.me in FOUR && ProposerOf(policy, s) != s.me && !s.failed
    ensures Reachable(policy, t) && t.phase == Phase(AcceptState, true, false) && t.msgs == NO_MSGS
    ensures t.view == View(s.view.sequence, s.view.round + 1) && t.proposer == ProposerOf(policy, s)
    ensures t.vset == s.vset && t.me == s.me && t.head == s.head && t.lock == s.lock
  {
    t := CanEnter(policy, s);
    t := CanAskNext(policy, t);
    ThreeOfFour();
    var evs := CanChangeRound(policy, t, THREE[..2], 0);
    ReachableRun(policy, t, evs);
    t := Run(t, evs);
    t := CanEnter(policy, t);
  }

  /** The proposal is the block the node is locked on, and the others commit it. */
  lemma CanCommitAgain(policy: Policy, s: Node, h: Header) returns (t: Node)
    requires Reachable(policy, s) && s.phase == Phase(AcceptState, true, false) && s.msgs == NO_MSGS && s.vset == FOUR
    requires s.lock == Lock(Some(h), true)
    ensures Reachable(policy, t) && t.phase.state == CommitState && t.lock == s.lock && t.view == s.view
    ensures t.vset == FOUR && t.me == s.me && t.msgs.committed == CommitTally(s.view, h, {}, THREE)
  {
    var read := Read(Message(s.proposer, Preprepare, s.view, Some(h)), Verified);
    ReachableStep(policy, s, read);
    t := Next(s, read);
    ThreeOfFour();
    var evs := CanPrepare(policy, t, THREE, 0);
    ReachableRun(policy, t, evs);
    t := Run(t, evs);
    evs := CanCommit(policy, t, h, {}, THREE, 0);
    ReachableRun(policy, t, evs);
    t := Run(t, evs);
  }

  /** A validator that is locked on a block of height 1 learns that block from a peer, meets it again as the
      proposal of round 1 of height 2, and inserts it: the round goes back to 0 within the sequence. */
  lemma RoundCanDecrease(policy: Policy, digest: nat) returns (s: Node)
    requires Buildable(policy, digest)
    ensures Reachable(policy, s) && s.vset == FOUR && s.me in s.vset && s.phase.state == CommitState
    ensures Allowed(policy, s, Insert(Inserted))
    ensures var t := Next(s, Insert(Inserted));
            t.view.sequence == s.view.sequence && t.view.round < s.view.round
  {
    var h := Header(1, digest);
    var me := Other(CalcProposer(FOUR, policy.Draw(GENESIS)), CalcProposer(FOUR, policy.Draw(h)));
    s := StaleLock(policy, me, h);
    s := CanMoveToRoundOne(policy, s);
    s := CanCommitAgain(policy, s, h);
    TallyWritable(policy, s.view, h, THREE);
  }
}
