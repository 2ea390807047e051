/** Agreement where no validator may be faulty (F = 0): one seal commits a header, each height has one proposer, and it
    proposes once. */
module NoFaults {
  import opened Types
  import opened MsgQueues
  import opened Quorum
  import opened Pvbft
  import opened Proposals
  import opened Network

  /** A header that some node has sealed, or the one all start from. */
  ghost predicate Known(c: Setup, net: Net, h: Header) {
    h == c.genesis || exists a :: a in net && h in net[a].seals
  }

  ghost predicate OneKnownPerHeight(c: Setup, net: Net) {
    forall h1, h2 :: Known(c, net, h1) && Known(c, net, h2) && h1.number == h2.number ==> h1 == h2
  }

  /** p is drawn on top of h. */
  ghost predicate DrawnAt(c: Setup, net: Net, h: Header, p: Address, number: nat) {
    Known(c, net, h) && h.number + 1 == number && c.vset != [] && CalcProposer(c.vset, c.seed(h)) == p
  }

  /** The header was proposed for its height by the validator drawn there. */
  ghost predicate Proposed(c: Setup, net: Net, h: Header) {
    exists p, m, parent :: ProposedBy(c, net, h, p, m, parent)
  }

  ghost predicate ProposedBy(c: Setup, net: Net, h: Header, p: Address, m: Message, parent: Header) {
    p in net && Offer(net[p], m) && m.proposal == Some(h) && DrawnAt(c, net, parent, p, h.number)
  }

  /** The commit messages it is about to put into a header have been sent. */
  ghost predicate TallySent(net: Net, s: Node) {
    s.phase.state == CommitState ==>
      forall a :: a in s.msgs.committed ==> a in net && s.msgs.committed[a] in net[a].sent
  }

  /** Its block and its seals are of headers that were proposed. */
  ghost predicate Backed(c: Setup, net: Net, s: Node) {
    && (s.lock.block.Some? ==> Proposed(c, net, s.lock.block.value))
    && forall h :: h in s.seals ==> Proposed(c, net, h)
  }

  /** It is drawn wherever it proposes. */
  ghost predicate Entitled(c: Setup, net: Net, s: Node) {
    forall m :: Offer(s, m) ==> exists parent :: DrawnAt(c, net, parent, s.me, m.view.sequence)
  }

  /** What is kept of each validator. */
  ghost predicate NodeInv(c: Setup, net: Net, s: Node) {
    ProposalInv(c.Rules(), s) && Known(c, net, s.head) && TallySent(net, s) && Backed(c, net, s) && Entitled(c, net, s)
  }

  ghost predicate NetInv(c: Setup, net: Net) {
    && Honest(c.vset, c.faulty, c.Rules(), net) && OneKnownPerHeight(c, net)
    && (forall h :: Known(c, net, h) ==> h == c.genesis || h.number > c.genesis.number)
    && forall a :: a in net ==> NodeInv(c, net, net[a])
  }

  /** Two proposed headers of one height have the same parent, so the same proposer, which proposes once. */
  lemma ProposedOnce(c: Setup, net: Net, h1: Header, h2: Header)
    requires NetInv(c, net) && Proposed(c, net, h1) && Proposed(c, net, h2) && h1.number == h2.number
    ensures h1 == h2
  {
    var p1, m1, parent1 :| ProposedBy(c, net, h1, p1, m1, parent1);
    var p2, m2, parent2 :| ProposedBy(c, net, h2, p2, m2, parent2);
    assert parent1 == parent2;
    assert NodeInv(c, net, net[p1]);
    assert ProposesOnce(net[p1]);
    assert GoodMessage(c.Rules(), net[p1].seals, m1) && GoodMessage(c.Rules(), net[p1].seals, m2);
  }

  // What one step of a node does to its log, its block and its head.

  lemma LogGrows(s: Node, ev: Event)
    requires Inv(s)
    ensures s.sent <= Next(s, ev).sent && forall h :: h in s.seals ==> h in Next(s, ev).seals
  {
    SentGrows(s, ev);
    if !ev.Insert? {
      LockStep(s, ev);
    }
  }

  lemma NewSeal(s: Node, ev: Event, h: Header)
    requires Inv(s) && h in Next(s, ev).seals && h !in s.seals
    ensures s.lock.block == Some(h)
  {
    var s' := Next(s, ev);
    if !ev.Insert? {
      LockStep(s, ev);
      var i :| 0 <= i < |s'.seals| && s'.seals[i] == h;
      assert i >= |s.seals|;
      BlockKeptBySeal(s, ev);
    }
  }

  lemma BlockKeptBySeal(s: Node, ev: Event)
    requires Inv(s) && Next(s, ev).seals != s.seals
    ensures Next(s, ev).lock.block == s.lock.block
  {
    if ev.Read? && Next(s, ev).lock.block != s.lock.block {
      NewBlockRead(s, ev.m, ev.verdict);
    }
  }

  lemma NewHead(s: Node, ev: Event)
    requires Inv(s)
    ensures Next(s, ev).head == s.head || ev == HeadMoves(Next(s, ev).head) || Next(s, ev).head in s.seals
  {
    if ev.Read? {
      FramedRead(s, ev.m, ev.verdict);
    }
  }

  lemma NewBlockRead(s: Node, m: Message, verdict: Verdict)
    requires Inv(s) && Next(s, Read(m, verdict)).lock.block != s.lock.block
    ensures s.phase.state == AcceptState && s.phase.entered && !s.lock.locked && verdict == Verified
    ensures m.from == s.proposer && m.typ == Preprepare && m.view == s.view
    ensures m.proposal.Some? && m.proposal == Next(s, Read(m, verdict)).lock.block
  {
    if Readable(s, m) && s.phase.state == ValidateState {
      LockValidateMessage(s, m);
    }
  }

  /** A block the node did not have before is one it builds and proposes, or the proposal it reads. */
  lemma NewBlock(s: Node, ev: Event)
    requires Inv(s) && Next(s, ev).lock.block.Some? && Next(s, ev).lock.block != s.lock.block
    ensures if ev.Read?
            then ev.m.from in s.vset && ev.m.typ == Preprepare && ev.m.proposal == Next(s, ev).lock.block
            else Offer(Next(s, ev), Message(s.me, Preprepare, s.view, Next(s, ev).lock.block))
  {
    if ev.Read? {
      NewBlockRead(s, ev.m, ev.verdict);
    }
  }

  lemma ReachesCommit(s: Node, ev: Event)
    requires Next(s, ev).phase.state == CommitState
    ensures s.phase.state == CommitState ==> Next(s, ev).msgs == s.msgs
    ensures s.phase.state != CommitState ==> ev.Read? && s.phase.state == ValidateState && Readable(s, ev.m)
  {
    if ev.Read? && s.phase.state == RoundChangeState {
      assert AddMessage(s, ev.m).phase == s.phase;
    }
  }

  lemma FirstCommit(s: Node, m: Message)
    requires s.phase.state == ValidateState && s.NumValid() == 0 && s.msgs.committed == map[]
    requires ValidateMessage(s, m).phase.state == CommitState
    ensures m.from in s.vset && ValidateMessage(s, m).msgs.committed == map[m.from := m]
  {
    VoteCases(s, m);
  }

  /** With F = 0 a node comes to insert on the first commit message it reads. */
  lemma NewTally(s: Node, ev: Event)
    requires Brisk(s) && s.NumValid() == 0 && Next(s, ev).phase.state == CommitState
    ensures if s.phase.state == CommitState then Next(s, ev).msgs.committed == s.msgs.committed
            else ev.Read? && ev.m.from in s.vset && Next(s, ev).msgs.committed == map[ev.m.from := ev.m]
  {
    ReachesCommit(s, ev);
    if s.phase.state != CommitState {
      FirstCommit(s, ev.m);
    }
  }

  // The invariant of the network.

  lemma KnownGrows(c: Setup, net: Net, mv: Move)
    requires mv.a in net && Inv(net[mv.a])
    ensures forall h :: Known(c, net, h) ==> Known(c, NetNext(net, mv), h)
    ensures forall p, m :: p in net && Offer(net[p], m) ==> Offer(NetNext(net, mv)[p], m)
    ensures forall h, p, n :: DrawnAt(c, net, h, p, n) ==> DrawnAt(c, NetNext(net, mv), h, p, n)
  {
    LogGrows(net[mv.a], mv.ev);
    forall h | Known(c, net, h) ensures Known(c, NetNext(net, mv), h) {
      if h != c.genesis {
        var a :| a in net && h in net[a].seals;
        assert h in NetNext(net, mv)[a].seals;
      }
    }
  }

  lemma ProposedGrows(c: Setup, net: Net, mv: Move, h: Header)
    requires mv.a in net && Inv(net[mv.a]) && Proposed(c, net, h)
    ensures Proposed(c, NetNext(net, mv), h)
  {
    KnownGrows(c, net, mv);
    var p, m, parent :| ProposedBy(c, net, h, p, m, parent);
    assert ProposedBy(c, NetNext(net, mv), h, p, m, parent);
  }

  lemma KnownStep(c: Setup, net: Net, mv: Move, h: Header)
    requires NetInv(c, net) && mv.a in net && Known(c, NetNext(net, mv), h)
    ensures Known(c, net, h) || Proposed(c, net, h)
  {
    if h != c.genesis {
      var a :| a in NetNext(net, mv) && h in NetNext(net, mv)[a].seals;
      assert NodeInv(c, net, net[a]);
      if h !in net[a].seals {
        NewSeal(net[a], mv.ev, h);
      }
    }
  }

  lemma ProposedAboveGenesis(c: Setup, net: Net, h: Header)
    requires NetInv(c, net) && Proposed(c, net, h)
    ensures h.number > c.genesis.number
  {
  }

  lemma KnownIsProposed(c: Setup, net: Net, h: Header)
    requires NetInv(c, net) && Known(c, net, h) && h != c.genesis
    ensures Proposed(c, net, h)
  {
    var a :| a in net && h in net[a].seals;
    assert NodeInv(c, net, net[a]);
  }

  lemma OneKnownStep(c: Setup, net: Net, mv: Move)
    requires NetInv(c, net) && mv.a in net
    ensures OneKnownPerHeight(c, NetNext(net, mv))
    ensures forall h :: Known(c, NetNext(net, mv), h) ==> h == c.genesis || h.number > c.genesis.number
  {
    forall h | Known(c, NetNext(net, mv), h) && h != c.genesis
      ensures Proposed(c, net, h) && h.number > c.genesis.number
    {
      KnownStep(c, net, mv, h);
      if !Proposed(c, net, h) {
        KnownIsProposed(c, net, h);
      }
      ProposedAboveGenesis(c, net, h);
    }
    forall h1, h2 | Known(c, NetNext(net, mv), h1) && Known(c, NetNext(net, mv), h2) && h1.number == h2.number
      ensures h1 == h2
    {
      if h1 != c.genesis && h2 != c.genesis {
        ProposedOnce(c, net, h1, h2);
      }
    }
  }

  /** An honest proposal that is read. */
  lemma ReadIsProposed(c: Setup, net: Net, m: Message)
    requires NetInv(c, net) && m.from in net && Offer(net[m.from], m)
    ensures m.proposal.Some? && m.proposal.value.number == m.view.sequence && c.valid(m.proposal.value)
    ensures Proposed(c, net, m.proposal.value)
  {
    var s := net[m.from];
    assert NodeInv(c, net, s) && GoodMessage(c.Rules(), s.seals, m);
    var parent :| DrawnAt(c, net, parent, s.me, m.view.sequence);
    assert ProposedBy(c, net, m.proposal.value, m.from, m, parent);
  }

  lemma ProposedIsValid(c: Setup, net: Net, h: Header)
    requires NetInv(c, net) && Proposed(c, net, h)
    ensures c.valid(h)
  {
    var p, m, parent :| ProposedBy(c, net, h, p, m, parent);
    assert NodeInv(c, net, net[p]) && GoodMessage(c.Rules(), net[p].seals, m);
  }

  /** A tallied commit message of the node's view covers a proposed header of the height of the view. */
  lemma TalliedIsProposed(c: Setup, net: Net, s: Node, a: Address)
    requires NetInv(c, net) && NodeInv(c, net, s) && s.phase.state == CommitState && a in s.msgs.committed
    ensures var m := s.msgs.committed[a];
            m.proposal.Some? && m.proposal.value.number == s.view.sequence && Proposed(c, net, m.proposal.value)
  {
    var m := s.msgs.committed[a];
    assert Hygienic(s.msgs.committed, Commit, s.view, s.vset) by { assert Counting(s); }
    assert NodeInv(c, net, net[a]) && GoodMessage(c.Rules(), net[a].seals, m);
  }

  /** With F = 0 no write fails: all seals of a height cover the one block that was proposed for it. */
  lemma NoFailedWrite(c: Setup, net: Net, s: Node)
    requires NetInv(c, net) && NodeInv(c, net, s) && s.phase.state == CommitState
    ensures CanWrite(c.Rules(), s)
  {
    var h := s.lock.block.value;
    ProposedIsValid(c, net, h);
    forall a | a in s.msgs.committed ensures s.msgs.committed[a].proposal == Some(h) {
      TalliedIsProposed(c, net, s, a);
      ProposedOnce(c, net, h, s.msgs.committed[a].proposal.value);
    }
  }

  // The validator that moves.

  lemma MovedProposals(c: Setup, net: Net, mv: Move)
    requires NetInv(c, net) && Possible(c, net, mv) && c.faulty == {} && MaxFaultyNodes(|c.vset|) == 0
    ensures ProposalInv(c.Rules(), Next(net[mv.a], mv.ev))
  {
    var s := net[mv.a];
    assert NodeInv(c, net, s);
    if mv.ev.Read? && mv.ev.m.typ == Preprepare && mv.ev.m.from !in net {
      StrangerIgnored(s, mv.ev);
    } else {
      MovedWrite(c, net, mv);
      if mv.ev.Read? && mv.ev.m.typ == Preprepare {
        MovedRead(c, net, mv);
      }
      ProposalInvStep(c.Rules(), s, mv.ev);
    }
  }

  /** No write of it fails. */
  lemma MovedWrite(c: Setup, net: Net, mv: Move)
    requires NetInv(c, net) && Possible(c, net, mv)
    ensures mv.ev == Insert(WriteFailed) ==> net[mv.a].phase.state != CommitState
  {
    if net[mv.a].phase.state == CommitState {
      assert NodeInv(c, net, net[mv.a]);
      NoFailedWrite(c, net, net[mv.a]);
    }
  }

  /** The proposals it reads have the height of their view. */
  lemma MovedRead(c: Setup, net: Net, mv: Move)
    requires NetInv(c, net) && Possible(c, net, mv) && mv.ev.Read? && mv.ev.m.typ == Preprepare && mv.ev.m.from in net
    ensures mv.ev.m.proposal.Some? && mv.ev.m.proposal.value.number == mv.ev.m.view.sequence
  {
    ReadIsProposed(c, net, mv.ev.m);
  }

  /** A proposal of somebody else than a validator is not taken. */
  lemma StrangerIgnored(s: Node, ev: Event)
    requires Inv(s) && ev.Read? && ev.m.typ == Preprepare && ev.m.from !in s.vset
    ensures Next(s, ev) == s
  {
  }

  lemma MovedEntitled(c: Setup, net: Net, mv: Move)
    requires NetInv(c, net) && Possible(c, net, mv)
    ensures Entitled(c, NetNext(net, mv), Next(net[mv.a], mv.ev))
  {
    NextKeepsIdentity(net[mv.a], mv.ev);
    forall m | Offer(Next(net[mv.a], mv.ev), m)
      ensures exists parent :: DrawnAt(c, NetNext(net, mv), parent, mv.a, m.view.sequence)
    {
      MovedProposal(c, net, mv, m);
    }
  }

  lemma MovedProposal(c: Setup, net: Net, mv: Move, m: Message)
    requires NetInv(c, net) && Possible(c, net, mv) && Offer(Next(net[mv.a], mv.ev), m)
    ensures exists parent :: DrawnAt(c, NetNext(net, mv), parent, mv.a, m.view.sequence)
  {
    var s := net[mv.a];
    assert NodeInv(c, net, s);
    KnownGrows(c, net, mv);
    if m in s.sent {
      assert Offer(s, m);
      var parent :| DrawnAt(c, net, parent, s.me, m.view.sequence);
      assert DrawnAt(c, NetNext(net, mv), parent, mv.a, m.view.sequence);
    } else {
      OnlyProposersPropose(c.Rules(), s, mv.ev, m);
      assert DrawnAt(c, net, s.head, s.me, m.view.sequence);
      assert DrawnAt(c, NetNext(net, mv), s.head, mv.a, m.view.sequence);
    }
  }

  lemma MovedBlock(c: Setup, net: Net, mv: Move)
    requires NetInv(c, net) && Possible(c, net, mv) && c.faulty == {}
    requires ProposalInv(c.Rules(), Next(net[mv.a], mv.ev)) && Next(net[mv.a], mv.ev).lock.block.Some?
    ensures Proposed(c, NetNext(net, mv), Next(net[mv.a], mv.ev).lock.block.value)
  {
    var s := net[mv.a];
    var h := Next(s, mv.ev).lock.block.value;
    assert NodeInv(c, net, s);
    if Some(h) == s.lock.block {
      ProposedGrows(c, net, mv, h);
    } else {
      NewBlock(s, mv.ev);
      if mv.ev.Read? {
        ReadIsProposed(c, net, mv.ev.m);
        ProposedGrows(c, net, mv, h);
      } else {
        MovedOffer(c, net, mv, Message(s.me, Preprepare, s.view, Some(h)), h);
      }
    }
  }

  lemma MovedOffer(c: Setup, net: Net, mv: Move, m: Message, h: Header)
    requires NetInv(c, net) && Possible(c, net, mv) && ProposalInv(c.Rules(), Next(net[mv.a], mv.ev))
    requires Offer(Next(net[mv.a], mv.ev), m) && m.proposal == Some(h)
    ensures Proposed(c, NetNext(net, mv), h)
  {
    MovedProposal(c, net, mv, m);
    assert GoodMessage(c.Rules(), Next(net[mv.a], mv.ev).seals, m);
    var parent :| DrawnAt(c, NetNext(net, mv), parent, mv.a, m.view.sequence);
    assert ProposedBy(c, NetNext(net, mv), h, mv.a, m, parent);
  }

  lemma MovedBacked(c: Setup, net: Net, mv: Move)
    requires NetInv(c, net) && Possible(c, net, mv) && c.faulty == {}
    requires ProposalInv(c.Rules(), Next(net[mv.a], mv.ev))
    ensures Backed(c, NetNext(net, mv), Next(net[mv.a], mv.ev))
  {
    var s := net[mv.a];
    assert NodeInv(c, net, s);
    if Next(s, mv.ev).lock.block.Some? {
      MovedBlock(c, net, mv);
    }
    forall h | h in Next(s, mv.ev).seals ensures Proposed(c, NetNext(net, mv), h) {
      if h !in s.seals {
        NewSeal(s, mv.ev, h);
      }
      ProposedGrows(c, net, mv, h);
    }
  }

  lemma TallyKept(net: Net, net': Net, s: Node)
    requires SentKept(net, net') && TallySent(net, s)
    ensures TallySent(net', s)
  {
  }

  lemma MovedTally(c: Setup, net: Net, mv: Move)
    requires NetInv(c, net) && Possible(c, net, mv) && c.faulty == {} && MaxFaultyNodes(|c.vset|) == 0
    ensures TallySent(NetNext(net, mv), Next(net[mv.a], mv.ev))
  {
    var s, s' := net[mv.a], Next(net[mv.a], mv.ev);
    assert NodeInv(c, net, s);
    if s'.phase.state == CommitState {
      NewTally(s, mv.ev);
      forall a | a in s'.msgs.committed ensures a in net && s'.msgs.committed[a] in net[a].sent {
        assert s.phase.state == CommitState ==> s'.msgs.committed[a] == s.msgs.committed[a];
      }
    }
    SentKeptStep(net, mv);
    TallyKept(net, NetNext(net, mv), s');
  }

  lemma MovedHead(c: Setup, net: Net, mv: Move)
    requires NetInv(c, net) && Possible(c, net, mv) && c.faulty == {}
    ensures Known(c, NetNext(net, mv), Next(net[mv.a], mv.ev).head)
  {
    var s := net[mv.a];
    var h := Next(s, mv.ev).head;
    assert NodeInv(c, net, s);
    NewHead(s, mv.ev);
    KnownGrows(c, net, mv);
    if mv.ev == HeadMoves(h) {
      var q :| IsQuorum(q, Elements(c.vset)) && VouchedBy(c, net, h, q);
      var a :| a in q;
      assert Known(c, net, h);
    }
  }

  lemma MovedNode(c: Setup, net: Net, mv: Move)
    requires NetInv(c, net) && Possible(c, net, mv) && c.faulty == {} && MaxFaultyNodes(|c.vset|) == 0
    ensures NodeInv(c, NetNext(net, mv), Next(net[mv.a], mv.ev))
  {
    MovedProposals(c, net, mv);
    MovedHead(c, net, mv);
    MovedTally(c, net, mv);
    MovedBacked(c, net, mv);
    MovedEntitled(c, net, mv);
  }

  // The others.

  lemma OtherEntitled(c: Setup, net: Net, mv: Move, s: Node)
    requires mv.a in net && Inv(net[mv.a]) && Entitled(c, net, s)
    ensures Entitled(c, NetNext(net, mv), s)
  {
    KnownGrows(c, net, mv);
    forall m | Offer(s, m) ensures exists parent :: DrawnAt(c, NetNext(net, mv), parent, s.me, m.view.sequence) {
      var parent :| DrawnAt(c, net, parent, s.me, m.view.sequence);
      assert DrawnAt(c, NetNext(net, mv), parent, s.me, m.view.sequence);
    }
  }

  lemma OtherBacked(c: Setup, net: Net, mv: Move, s: Node)
    requires mv.a in net && Inv(net[mv.a]) && Backed(c, net, s)
    ensures Backed(c, NetNext(net, mv), s)
  {
    forall h | Proposed(c, net, h) ensures Proposed(c, NetNext(net, mv), h) {
      ProposedGrows(c, net, mv, h);
    }
  }

  lemma OtherNode(c: Setup, net: Net, mv: Move, s: Node)
    requires NetInv(c, net) && mv.a in net && NodeInv(c, net, s)
    ensures NodeInv(c, NetNext(net, mv), s)
  {
    assert NodeInv(c, net, net[mv.a]);
    KnownGrows(c, net, mv);
    SentKeptStep(net, mv);
    TallyKept(net, NetNext(net, mv), s);
    OtherBacked(c, net, mv, s);
    OtherEntitled(c, net, mv, s);
  }

  lemma NodeStep(c: Setup, net: Net, mv: Move, a: Address)
    requires NetInv(c, net) && Possible(c, net, mv) && c.faulty == {} && MaxFaultyNodes(|c.vset|) == 0 && a in net
    ensures NodeInv(c, NetNext(net, mv), NetNext(net, mv)[a])
  {
    if a == mv.a {
      MovedNode(c, net, mv);
    } else {
      assert NodeInv(c, net, net[a]);
      OtherNode(c, net, mv, net[a]);
    }
  }

  lemma NetInvStep(c: Setup, net: Net, mv: Move)
    requires NetInv(c, net) && Possible(c, net, mv) && c.faulty == {} && MaxFaultyNodes(|c.vset|) == 0
    requires Honest(c.vset, c.faulty, c.Rules(), NetNext(net, mv))
    ensures NetInv(c, NetNext(net, mv))
  {
    OneKnownStep(c, net, mv);
    forall a | a in NetNext(net, mv) ensures NodeInv(c, NetNext(net, mv), NetNext(net, mv)[a]) {
      NodeStep(c, net, mv, a);
    }
  }

  lemma NetInvStart(c: Setup)
    requires Honest(c.vset, c.faulty, c.Rules(), Start(c))
    ensures NetInv(c, Start(c))
  {
    var net := Start(c);
    assert forall h :: Known(c, net, h) ==> h == c.genesis;
    forall a | a in net ensures NodeInv(c, net, net[a]) {
      InitialInv(c.vset, a, c.genesis);
      assert forall m :: !Offer(net[a], m);
    }
  }

  lemma {:induction false} NetInvRun(c: Setup, mvs: seq<Move>)
    requires AllPossible(c, mvs) && c.faulty == {} && MaxFaultyNodes(|c.vset|) == 0
    ensures NetInv(c, NetRun(c, mvs))
  {
    HonestRun(c, mvs);
    if mvs == [] {
      NetInvStart(c);
    } else {
      var net, mv := NetRun(c, mvs[..|mvs| - 1]), mvs[|mvs| - 1];
      NetInvRun(c, mvs[..|mvs| - 1]);
      NetInvStep(c, net, mv);
    }
  }

  /** With F = 0 one seal commits a header, and still all agree: on every run of the network no two nodes seal
      different headers of one height. */
  lemma NoFaultAgreement(c: Setup, net: Net, recover: (Seal, Header) -> Option<Address>,
                         h1: Header, seals1: seq<Seal>, h2: Header, seals2: seq<Seal>)
    requires Distinct(c.vset) && MaxFaultyNodes(|c.vset|) == 0 && Happens(c, net)
    requires Genuine(net, recover) && BothCommitted(c.vset, recover, h1, seals1, h2, seals2)
    ensures h1 == h2
  {
    assert c.faulty == {};
    var mvs :| AllPossible(c, mvs) && net == NetRun(c, mvs);
    NetInvRun(c, mvs);
    KnownIfCommitted(c, net, recover, h1, seals1);
    KnownIfCommitted(c, net, recover, h2, seals2);
  }

  lemma KnownIfCommitted(c: Setup, net: Net, recover: (Seal, Header) -> Option<Address>, h: Header, seals: seq<Seal>)
    requires Distinct(c.vset) && Honest(c.vset, {}, c.Rules(), net) && c.faulty == {}
    requires Genuine(net, recover) && Committed(c.vset, recover, seals, h)
    ensures Known(c, net, h)
  {
    CommittedIsVouched(c.vset, c.faulty, c.Rules(), net, recover, h, seals);
    var a :| a in Signers(recover, seals, h);
  }
}
