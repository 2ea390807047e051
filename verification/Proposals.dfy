/** What the messages of one node say about the blocks it proposes and seals, when there is no room for a faulty
    validator (F = 0): it proposes one block for each height, and seals no other. */
module Proposals {
  import opened Types
  import opened MsgQueues
  import opened Quorum
  import opened Pvbft

  ghost predicate Offer(s: Node, m: Message) {
    m in s.sent && m.typ == Preprepare
  }

  ghost predicate ProposesOnce(s: Node) {
    forall m, m' :: Offer(s, m) && Offer(s, m') && m.view.sequence == m'.view.sequence ==> m.proposal == m'.proposal
  }

  predicate Busy(s: Node) {
    s.phase.state == ValidateState || s.phase.state == CommitState
  }

  /** It holds on to what it has proposed until the chain has a block of that height. */
  ghost predicate Holds(s: Node) {
    forall m :: Offer(s, m) && m.view.sequence > s.head.number ==> Busy(s) && s.lock.block == m.proposal
  }

  /** One prepare message is enough to seal and one commit message to insert, and the node's own are read before it
      can time out: a lock is held only from the proposal to the insertion. */
  ghost predicate Brisk(s: Node) {
    && (s.lock.locked ==> Busy(s))
    && (s.phase.state == ValidateState ==>
          s.msgs.committed == map[] && (s.msgs.prepared != map[] ==> s.phase.hasCommitted))
    && (Busy(s) ==> s.lock.block.Some? && s.lock.block.value.number == s.view.sequence)
  }

  /** What it sends: valid blocks of the height of the view, and seals of blocks of that height. */
  ghost predicate GoodMessage(policy: Policy, seals: seq<Header>, m: Message) {
    && (m.typ == Preprepare ==>
          m.proposal.Some? && m.proposal.value.number == m.view.sequence && policy.Valid(m.proposal.value))
    && (m.typ == Commit ==>
          m.proposal.Some? && m.proposal.value.number == m.view.sequence && m.proposal.value in seals)
  }

  ghost predicate GoodMessages(policy: Policy, s: Node) {
    forall m :: m in s.sent ==> GoodMessage(policy, s.seals, m)
  }

  ghost predicate ProposalInv(policy: Policy, s: Node) {
    Inv(s) && Brisk(s) && GoodMessages(policy, s) && ProposesOnce(s) && Holds(s)
  }

  /** Only the proposer that is drawn at the head sends proposals, and they are for the next height. */
  lemma OnlyProposersPropose(policy: Policy, s: Node, ev: Event, m: Message)
    requires Allowed(policy, s, ev) && policy.seed.Some? && m in Next(s, ev).sent && m !in s.sent && m.typ == Preprepare
    ensures ev.EnterAccept? && s.phase.state == AcceptState && !s.phase.entered
    ensures m.view == s.view && m.view.sequence == s.head.number + 1 && m.proposal == Next(s, ev).lock.block
    ensures s.vset != [] && CalcProposer(s.vset, policy.Draw(s.head)) == s.me
    ensures Next(s, ev).phase.state == ValidateState && (s.lock.locked ==> Next(s, ev).lock == s.lock)
  {
    if ev.Read? {
      FramedRead(s, ev.m, ev.verdict);
    }
  }

  /** Steps of a node that is not busy, with nothing to hold on to afterwards, or of one that stays busy. */
  lemma Quiet(policy: Policy, s: Node, s': Node)
    requires ProposalInv(policy, s) && Inv(s') && Brisk(s') && s'.head.number >= s.head.number && s.seals <= s'.seals
    requires forall m :: m in s'.sent ==> m in s.sent || (m.typ != Preprepare && GoodMessage(policy, s'.seals, m))
    requires Busy(s) ==> Busy(s') && s'.lock.block == s.lock.block
    ensures ProposalInv(policy, s')
  {
    forall m | m in s'.sent ensures GoodMessage(policy, s'.seals, m) {
      assert m in s.sent ==> GoodMessage(policy, s.seals, m);
    }
    assert forall m :: Offer(s', m) ==> Offer(s, m);
  }

  /** A node that was not busy proposes h. */
  lemma OfferStep(policy: Policy, s: Node, s': Node, h: Header)
    requires ProposalInv(policy, s) && Inv(s') && Brisk(s') && s'.head == s.head && s'.seals == s.seals && !Busy(s)
    requires Busy(s') && s'.lock.block == Some(h) && policy.Valid(h) && h.number == s.view.sequence == s.head.number + 1
    requires s'.sent == s.sent + {Message(s.me, Preprepare, s.view, Some(h))} + {Message(s.me, Prepare, s.view, None)}
    ensures ProposalInv(policy, s')
  {
    assert forall m :: Offer(s', m) ==> Offer(s, m) || m == Message(s.me, Preprepare, s.view, Some(h));
    forall m | m in s'.sent ensures GoodMessage(policy, s'.seals, m) {
      assert m in s.sent ==> GoodMessage(policy, s.seals, m);
    }
  }

  lemma EnterCases(s: Node, found: bool, seed: nat, built: Option<nat>)
    requires s.phase.state == AcceptState && !s.phase.entered && !s.lock.locked
    ensures var s' := BeginAccept(s, found, seed, built);
            && s'.seals == s.seals && s'.head == s.head && s'.view == s.view && !s'.lock.locked
            && if s'.phase.state != ValidateState then !Busy(s') && s'.sent == s.sent
               else && built.Some? && s'.lock.block == Some(Header(s.head.number + 1, built.value))
                    && s.view.sequence == s.head.number + 1 && s'.msgs == NO_MSGS
                    && s'.sent == s.sent + {Message(s.me, Preprepare, s.view, s'.lock.block)}
                                 + {Message(s.me, Prepare, s.view, None)}
  {
  }

  lemma EnterStep(policy: Policy, s: Node, ev: Event)
    requires ProposalInv(policy, s) && Allowed(policy, s, ev) && ev.EnterAccept?
    ensures ProposalInv(policy, Next(s, ev))
  {
    if s.phase.state == AcceptState && !s.phase.entered {
      var s' := BeginAccept(s, ev.found, ev.seed, ev.built);
      InvBeginAccept(s, ev.found, ev.seed, ev.built);
      EnterCases(s, ev.found, ev.seed, ev.built);
      if s'.phase.state == ValidateState {
        OfferStep(policy, s, s', s'.lock.block.value);
      } else {
        Quiet(policy, s, s');
      }
    }
  }

  lemma SealStep(policy: Policy, s: Node, t: Node)
    requires ProposalInv(policy, s) && s.phase.state == ValidateState && t == s.(msgs := t.msgs)
    ensures var s' := SendCommit(t);
            && s.seals <= s'.seals && s'.head == s.head && s'.lock == Lock(s.lock.block, true) && s'.msgs == t.msgs
            && s'.phase == s.phase.(hasCommitted := true) && s'.view == s.view
            && forall m :: m in s'.sent ==> m in s.sent || (m.typ != Preprepare && GoodMessage(policy, s'.seals, m))
  {
    var h := s.lock.block.value;
    var s' := SendCommit(t);
    if !s.phase.hasCommitted {
      assert s'.seals == s.seals + [h] && s'.sent == s.sent + {Message(s.me, Commit, s.view, Some(h))};
      assert s'.seals[|s.seals|] == h;
    }
  }

  /** With F = 0 the first commit message leads to the insertion, and the first prepare message to a seal. */
  lemma VoteCases(s: Node, m: Message)
    requires s.phase.state == ValidateState && s.NumValid() == 0
    ensures var t := AddMessage(s, m);
            && t == s.(msgs := t.msgs)
            && ValidateMessage(s, m) == if |t.msgs.committed| > 0 then Committing(SendCommit(t))
                                        else if |t.msgs.prepared| > 0 then SendCommit(t) else t
  {
    var t := AddMessage(s, m);
    assert t == s.(msgs := t.msgs);
    assert SendCommit(SendCommit(t)) == SendCommit(t);
  }

  /** A vote makes a node that validates seal its block, or insert it. */
  lemma VoteStep(policy: Policy, s: Node, m: Message)
    requires ProposalInv(policy, s) && s.phase.state == ValidateState && Readable(s, m) && s.NumValid() == 0
    ensures ProposalInv(policy, ValidateMessage(s, m))
  {
    InvValidateMessage(s, m);
    VoteCases(s, m);
    SealStep(policy, s, AddMessage(s, m));
    Quiet(policy, s, ValidateMessage(s, m));
  }

  lemma AcceptStep(policy: Policy, s: Node, m: Message, verdict: Verdict)
    requires ProposalInv(policy, s) && s.phase.state == AcceptState && s.phase.entered && Readable(s, m)
    requires m.proposal.Some? ==> m.proposal.value.number == m.view.sequence
    ensures ProposalInv(policy, AcceptMessage(s, m, verdict))
  {
    var s' := AcceptMessage(s, m, verdict);
    InvAcceptMessage(s, m, verdict);
    DeliverableView(AcceptState, m, s.view);
    assert s'.seals == s.seals && s'.head == s.head;
    assert s'.sent == s.sent || s'.sent == s.sent + {Message(s.me, Prepare, s.view, None)};
    Quiet(policy, s, s');
  }

  lemma AskStep(policy: Policy, s: Node, m: Message)
    requires ProposalInv(policy, s) && s.phase.state == RoundChangeState && s.phase.entered
    ensures ProposalInv(policy, RoundChangeMessage(s, m))
  {
    var t, s' := AddMessage(s, m), RoundChangeMessage(s, m);
    InvRoundChange(s, m, false);
    assert t == s.(msgs := t.msgs);
    assert s'.seals == s.seals && s'.head == s.head && s'.lock == s.lock && !Busy(s');
    Quiet(policy, s, s');
  }

  lemma ReadStep(policy: Policy, s: Node, m: Message, verdict: Verdict)
    requires ProposalInv(policy, s) && s.NumValid() == 0
    requires m.typ == Preprepare && m.proposal.Some? ==> m.proposal.value.number == m.view.sequence
    ensures ProposalInv(policy, Next(s, Read(m, verdict)))
  {
    if Readable(s, m) {
      if s.phase.state == ValidateState {
        VoteStep(policy, s, m);
      } else if s.phase.state == AcceptState && s.phase.entered {
        AcceptStep(policy, s, m, verdict);
      } else if s.phase.state == RoundChangeState && s.phase.entered {
        AskStep(policy, s, m);
      }
    }
  }

  lemma InsertStep(policy: Policy, s: Node, outcome: InsertOutcome)
    requires ProposalInv(policy, s) && outcome != WriteFailed
    ensures ProposalInv(policy, Next(s, Insert(outcome)))
  {
    var s' := Next(s, Insert(outcome));
    InvStep(s, Insert(outcome));
    assert forall m :: Offer(s', m) ==> Offer(s, m);
    forall m | m in s'.sent ensures GoodMessage(policy, s'.seals, m) {
      assert GoodMessage(policy, s.seals, m);
    }
  }

  /** A node that validates cannot time out: its own prepare message has made it seal, and its own commit message
      would have led it to the insertion. */
  lemma NoTimeout(s: Node)
    requires Brisk(s) && s.phase.state == ValidateState
    ensures !TimeoutAllowed(s)
  {
  }

  lemma IdleFrame(s: Node, ev: Event)
    requires ev.HeadMoves? || ev.Sync? || (ev.Timeout? && s.phase.state != ValidateState) || ev.EnterRoundChange?
    ensures var s' := Next(s, ev);
            && s'.lock == s.lock && s'.seals == s.seals && s'.head.number >= s.head.number
            && (if Busy(s) then s'.phase == s.phase && s'.msgs == s.msgs && s'.view == s.view else !Busy(s'))
            && forall m :: m in s'.sent ==> m in s.sent || m.typ == RoundChange
  {
  }

  lemma IdleStep(policy: Policy, s: Node, ev: Event)
    requires ProposalInv(policy, s) && Allowed(policy, s, ev)
    requires ev.HeadMoves? || ev.Sync? || ev.Timeout? || ev.EnterRoundChange?
    ensures ProposalInv(policy, Next(s, ev))
  {
    if ev.Timeout? && s.phase.state == ValidateState {
      NoTimeout(s);
    } else {
      InvStep(s, ev);
      IdleFrame(s, ev);
      Quiet(policy, s, Next(s, ev));
    }
  }

  /** Every step keeps this with F = 0, if no write fails and the proposals the node reads have the height of their
      view. */
  lemma ProposalInvStep(policy: Policy, s: Node, ev: Event)
    requires ProposalInv(policy, s) && Allowed(policy, s, ev) && MaxFaultyNodes(|s.vset|) == 0
    requires ev == Insert(WriteFailed) ==> s.phase.state != CommitState
    requires ev.Read? && ev.m.typ == Preprepare && ev.m.proposal.Some? ==>
      ev.m.proposal.value.number == ev.m.view.sequence
    ensures ProposalInv(policy, Next(s, ev))
  {
    match ev
    case EnterAccept(_, _, _) => EnterStep(policy, s, ev);
    case Read(m, verdict) => ReadStep(policy, s, m, verdict);
    case Insert(outcome) =>
      if outcome != WriteFailed {
        InsertStep(policy, s, outcome);
      }
    case _ => IdleStep(policy, s, ev);
  }
}
