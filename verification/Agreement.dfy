/** Agreement among N nodes: two headers of one height that both carry an accepted list of commit seals
    are the same header, and exactly when. */
module Agreement {
  import opened Types
  import opened MsgQueues
  import opened Quorum
  import opened Pvbft
  import opened Network
  import opened NetRuns
  import NoFaults

  /** With N == 3F + 1, if no honest insertion fails after the unlock and accepted proposals have the height of the
      view: two quorums share an honest validator, which seals once per height. Whatever the nodes draw. */
  lemma Agreement(vset: seq<Address>, faulty: set<Address>, policy: Policy, net: Net,
                  recover: (Seal, Header) -> Option<Address>, h1: Header, seals1: seq<Seal>, h2: Header,
                  seals2: seq<Seal>)
    requires Distinct(vset) && |vset| % 3 == 1 && |faulty| <= MaxFaultyNodes(|vset|)
    requires Honest(vset, faulty, policy, net) && !policy.writeMayFail && !policy.heightUnchecked
    requires Genuine(net, recover) && BothCommitted(vset, recover, h1, seals1, h2, seals2)
    ensures h1 == h2
  {
    CommittedIsVouched(vset, faulty, policy, net, recover, h1, seals1);
    CommittedIsVouched(vset, faulty, policy, net, recover, h2, seals2);
    DistinctCardinality(vset);
    var v := QuorumIntersection(Elements(vset), Signers(recover, seals1, h1), Signers(recover, seals2, h2), faulty);
    ReachableSealsOnce(policy, net[v]);
  }

  // ----- The exact condition -----

  /** No state of the network, whoever is faulty, lets two headers of one height be committed. */
  ghost predicate Agrees(c: Setup) {
    forall faulty, net, recover, h1, seals1, h2, seals2 ::
      && Happens(c.(faulty := faulty), net) && Genuine(net, recover)
      && BothCommitted(c.vset, recover, h1, seals1, h2, seals2)
      ==> h1 == h2
  }

  /** Two headers that enough validators have sealed or may have sealed. */
  lemma ForkDisagrees(c: Setup, faulty: set<Address>, net: Net, h1: Header, q1: seq<Address>, h2: Header,
                      q2: seq<Address>)
    requires Happens(c.(faulty := faulty), net) && Quorate(c, q1) && Quorate(c, q2) && h1.number == h2.number
    requires h1 != h2
    requires forall a :: a in q1 ==> a in faulty || (a in net && h1 in net[a].seals)
    requires forall a :: a in q2 ==> a in faulty || (a in net && h2 in net[a].seals)
    ensures !Agrees(c)
  {
    HappensNamed(c.(faulty := faulty), net);
    QuorumCommits(c, faulty, net, h1, q1);
    QuorumCommits(c, faulty, net, h2, q2);
    assert Genuine(net, RecoverIn(faulty, net));
    assert BothCommitted(c.vset, RecoverIn(faulty, net), h1, q1, h2, q2);
  }

  lemma SealedByAllDisagrees(c: Setup, faulty: set<Address>, net: Net, h1: Header, h2: Header)
    requires Distinct(c.vset) && c.vset != [] && Happens(c.(faulty := faulty), net) && h1.number == h2.number
    requires h1 != h2
    requires SealedByAll(net, h1) && SealedByAll(net, h2)
    ensures !Agrees(c)
  {
    HappensNamed(c.(faulty := faulty), net);
    var q := HonestQuorum(c.(faulty := faulty));
    ForkDisagrees(c, faulty, net, h1, q, h2, q);
  }

  /** If a validator may be faulty and writes fail as in the code, one faulty proposer is enough to have any two
      headers of the first height sealed by all honest validators, for every N. */
  lemma FailedWritesDisagree(c: Setup, h1: Header, h2: Header)
    requires Distinct(c.vset) && MaxFaultyNodes(|c.vset|) > 0 && c.writeMayFail
    requires h1.number == h2.number == c.genesis.number + 1 && h1 != h2
    ensures !Agrees(c)
  {
    var c' := c.(faulty := {FirstProposer(c)});
    var net := FailedWritesFork(c', h1, h2);
    SealedByAllDisagrees(c, c'.faulty, net, h1, h2);
  }

  /** So are heights that are not compared, though all writes succeed. */
  lemma UncheckedHeightsDisagree(c: Setup, digest: nat, h2: Header)
    requires Distinct(c.vset) && MaxFaultyNodes(|c.vset|) > 0 && c.heightUnchecked
    requires CanBuild(c, digest)
    requires h2.number == c.genesis.number + 1 && h2.digest != digest
    ensures !Agrees(c)
  {
    var h1 := Header(c.genesis.number + 1, digest);
    var c' := c.(faulty := {CalcProposer(c.vset, c.seed(h1))});
    var net := UncheckedHeightsFork(c', digest, h2);
    SealedByAllDisagrees(c, c'.faulty, net, h1, h2);
  }

  /** If N is not 3F + 1 a faulty proposer needs neither: it sends one block to each of two quorums. */
  lemma QuorumsDisagree(c: Setup, h1: Header, h2: Header)
    requires Distinct(c.vset) && MaxFaultyNodes(|c.vset|) > 0 && |c.vset| % 3 != 1
    requires h1.number == h2.number == c.genesis.number + 1 && h1 != h2
    ensures !Agrees(c)
  {
    DistinctCardinality(c.vset);
    var a, b, faulty := QuorumsNeedNotMeet(Elements(c.vset), FirstProposer(c));
    var qa := SetToSeq(a);
    var qb := SetToSeq(b);
    assert forall x :: x in qa ==> x in Elements(qa);
    assert forall x :: x in qb ==> x in Elements(qb);
    assert forall x :: x in qa && x in qb ==> x in a * b;
    var net := QuorumsFork(c.(faulty := faulty), qa, qb, h1, h2);
    ForkDisagrees(c, faulty, net, h1, qa, h2, qb);
  }

  lemma Disagreement(c: Setup, digest: nat)
    requires Distinct(c.vset) && MaxFaultyNodes(|c.vset|) > 0 && CanBuild(c, digest)
    requires |c.vset| % 3 != 1 || c.writeMayFail || c.heightUnchecked
    ensures !Agrees(c)
  {
    var h1, h2 := Header(c.genesis.number + 1, digest), Header(c.genesis.number + 1, digest + 1);
    if c.writeMayFail {
      FailedWritesDisagree(c, h1, h2);
    } else if c.heightUnchecked {
      UncheckedHeightsDisagree(c, digest, h2);
    } else {
      QuorumsDisagree(c, h1, h2);
    }
  }

  /** Agreement holds on all runs exactly when no validator may be faulty, or N == 3F + 1 and neither a failing write
      nor a proposal of another height than the view's is among the runs. Whatever the proposer draw, as long as a
      block can be built on the header all start from. */
  lemma AgreementExactly(c: Setup)
    requires Distinct(c.vset) && exists digest :: CanBuild(c, digest)
    ensures Agrees(c) <==>
            MaxFaultyNodes(|c.vset|) == 0 || (|c.vset| % 3 == 1 && !c.writeMayFail && !c.heightUnchecked)
  {
    if MaxFaultyNodes(|c.vset|) == 0 || (|c.vset| % 3 == 1 && !c.writeMayFail && !c.heightUnchecked) {
      forall faulty, net, recover, h1, seals1, h2, seals2 |
        Happens(c.(faulty := faulty), net) && Genuine(net, recover)
        && BothCommitted(c.vset, recover, h1, seals1, h2, seals2)
        ensures h1 == h2
      {
        var c' := c.(faulty := faulty);
        if MaxFaultyNodes(|c.vset|) == 0 {
          NoFaults.NoFaultAgreement(c', net, recover, h1, seals1, h2, seals2);
        } else {
          HonestHappens(c', net);
          Agreement(c.vset, faulty, c'.Rules(), net, recover, h1, seals1, h2, seals2);
        }
      }
    } else {
      var digest :| CanBuild(c, digest);
      Disagreement(c, digest);
    }
  }
}
