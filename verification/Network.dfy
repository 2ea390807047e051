/** N validators as one transition system: the honest ones run the code of module Pvbft, the others send what
    they like. Every honest message that is read has been sent, a chain head learnt from a peer is valid and
    carries the seals that verifyCommitedFields asks for, and a write fails exactly when the block is not valid
    or a tallied seal does not cover its header. */
module Network {
  import opened Types
  import opened MsgQueues
  import opened Quorum
  import opened Pvbft

  /** The validators, the faulty ones among them, the header all start from, the seed each header gives for the
      proposer draw, and the headers whose blocks pass the checks of WriteBlock: honest proposers build only
      such. The flags take in the runs with a write that fails, and those with a proposal accepted at another
      height than the view's. The code has both. */
  datatype Setup = Setup(vset: seq<Address>, faulty: set<Address>, genesis: Header, seed: Header -> nat,
                         valid: Header -> bool, writeMayFail: bool, heightUnchecked: bool)
  {
    function Rules(): Policy {
      Policy(Some(seed), Some(valid), writeMayFail, heightUnchecked)
    }
  }

  /** The block of that digest can be put on the header all start from. */
  predicate CanBuild(c: Setup, digest: nat) {
    c.valid(Header(c.genesis.number + 1, digest))
  }

  type Net = map<Address, Node>

  /** One honest validator takes a step. */
  datatype Move = Move(a: Address, ev: Event)

  ghost function Start(c: Setup): Net {
    map a | a in c.vset && a !in c.faulty :: InitialNode(c.vset, a, c.genesis)
  }

  /** More than 2F validators can have sealed the header. */
  ghost predicate Vouched(c: Setup, net: Net, h: Header) {
    exists q :: IsQuorum(q, Elements(c.vset)) && VouchedBy(c, net, h, q)
  }

  ghost predicate VouchedBy(c: Setup, net: Net, h: Header, q: set<Address>) {
    forall a :: a in q ==> a in c.faulty || (a in net && h in net[a].seals)
  }

  ghost predicate Possible(c: Setup, net: Net, mv: Move) {
    && mv.a in net && Allowed(c.Rules(), net[mv.a], mv.ev)
    && (mv.ev.Read? && mv.ev.m.from in net ==> mv.ev.m in net[mv.ev.m.from].sent)
    && (mv.ev.HeadMoves? ==> Vouched(c, net, mv.ev.head) && c.valid(mv.ev.head))
  }

  ghost function NetNext(net: Net, mv: Move): Net {
    if mv.a in net then net[mv.a := Next(net[mv.a], mv.ev)] else net
  }

  ghost function NetRun(c: Setup, mvs: seq<Move>): Net {
    if mvs == [] then Start(c) else NetNext(NetRun(c, mvs[..|mvs| - 1]), mvs[|mvs| - 1])
  }

  ghost predicate AllPossible(c: Setup, mvs: seq<Move>) {
    mvs != [] ==>
      var prefix := mvs[..|mvs| - 1];
      AllPossible(c, prefix) && Possible(c, NetRun(c, prefix), mvs[|mvs| - 1])
  }

  /** The network can be in this state, with no more than F validators faulty. */
  ghost predicate Happens(c: Setup, net: Net) {
    |c.faulty| <= MaxFaultyNodes(|c.vset|) && exists mvs :: AllPossible(c, mvs) && net == NetRun(c, mvs)
  }

  lemma HappensNext(c: Setup, net: Net, mv: Move)
    requires Happens(c, net) && Possible(c, net, mv)
    ensures Happens(c, NetNext(net, mv))
  {
    var mvs :| AllPossible(c, mvs) && net == NetRun(c, mvs);
    assert (mvs + [mv])[..|mvs|] == mvs;
    assert AllPossible(c, mvs + [mv]) && NetNext(net, mv) == NetRun(c, mvs + [mv]);
  }

  // ----- Each honest validator is one run of the node -----

  lemma NextKeepsIdentity(s: Node, ev: Event)
    ensures Next(s, ev).vset == s.vset && Next(s, ev).me == s.me
  {
    if ev.Read? {
      FramedRead(s, ev.m, ev.verdict);
    }
  }

  /** Every honest validator is in a state that the node reaches on its own under this policy. */
  ghost predicate Honest(vset: seq<Address>, faulty: set<Address>, policy: Policy, net: Net) {
    && (forall a :: a in net <==> a in vset && a !in faulty)
    && forall a :: a in net ==> net[a].vset == vset && net[a].me == a && Reachable(policy, net[a])
  }

  lemma {:induction false} HonestRun(c: Setup, mvs: seq<Move>)
    requires AllPossible(c, mvs)
    ensures Honest(c.vset, c.faulty, c.Rules(), NetRun(c, mvs))
  {
    if mvs == [] {
      forall a | a in c.vset ensures Reachable(c.Rules(), InitialNode(c.vset, a, c.genesis)) {
        ReachableInitial(c.Rules(), c.vset, a, c.genesis);
      }
    } else {
      var net, mv := NetRun(c, mvs[..|mvs| - 1]), mvs[|mvs| - 1];
      HonestRun(c, mvs[..|mvs| - 1]);
      ReachableStep(c.Rules(), net[mv.a], mv.ev);
      NextKeepsIdentity(net[mv.a], mv.ev);
    }
  }

  lemma HonestHappens(c: Setup, net: Net)
    requires Happens(c, net)
    ensures Honest(c.vset, c.faulty, c.Rules(), net)
  {
    var mvs :| AllPossible(c, mvs) && net == NetRun(c, mvs);
    HonestRun(c, mvs);
  }

  // ----- What was sent stays sent -----

  lemma SentGrows(s: Node, ev: Event)
    ensures s.sent <= Next(s, ev).sent
  {
    if ev.Read? {
      FramedRead(s, ev.m, ev.verdict);
    }
  }

  ghost predicate SentKept(net: Net, net': Net) {
    forall a :: a in net ==> a in net' && net[a].sent <= net'[a].sent
  }

  lemma SentKeptStep(net: Net, mv: Move)
    ensures SentKept(net, NetNext(net, mv))
  {
    if mv.a in net {
      SentGrows(net[mv.a], mv.ev);
    }
  }

  // ----- Seals -----

  type Seal = nat

  /** A seal that is recovered to an honest validator is one it has emitted. */
  ghost predicate Genuine(net: Net, recover: (Seal, Header) -> Option<Address>) {
    forall a, seal, h :: a in net && recover(seal, h) == Some(a) ==> h in net[a].seals
  }

  /** Two headers of the same height, both accepted by verifyCommitedFields against the same validators. */
  ghost predicate BothCommitted(vset: seq<Address>, recover: (Seal, Header) -> Option<Address>,
                                h1: Header, seals1: seq<Seal>, h2: Header, seals2: seq<Seal>)
  {
    && h1.number == h2.number
    && Committed(vset, recover, seals1, h1)
    && Committed(vset, recover, seals2, h2)
  }

  /** An accepted seal list names a quorum, and its honest members have sealed the header. */
  lemma CommittedIsVouched(vset: seq<Address>, faulty: set<Address>, policy: Policy, net: Net,
                           recover: (Seal, Header) -> Option<Address>, h: Header, seals: seq<Seal>)
    requires Distinct(vset) && Honest(vset, faulty, policy, net) && Genuine(net, recover)
    requires Committed(vset, recover, seals, h)
    ensures var q := Signers(recover, seals, h);
            IsQuorum(q, Elements(vset)) && forall a :: a in q ==> a in faulty || (a in net && h in net[a].seals)
  {
    CommittedIsQuorum(vset, recover, seals, h);
    forall a | a in Signers(recover, seals, h) ensures a in faulty || (a in net && h in net[a].seals) {
      var i :| 0 <= i < |seals| && recover(seals[i], h) == Some(a);
    }
  }
}
