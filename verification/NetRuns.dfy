/** Runs of the network in which the honest validators move in step: how a header comes to be committed, and how two
    of one height do. */
module NetRuns {
  import opened Types
  import opened MsgQueues
  import opened Quorum
  import opened Pvbft
  import opened Runs
  import opened Network

  // ----- Several validators take the same stretch of a run -----

  /** Messages that are already on their way, or that nobody honest answers for. */
  ghost predicate Out(net: Net, ms: set<Message>) {
    forall m :: m in ms && m.from in net ==> m in net[m.from].sent
  }

  lemma {:induction false} RunSentGrows(s: Node, evs: seq<Event>)
    ensures s.sent <= Run(s, evs).sent
  {
    if evs != [] {
      RunSentGrows(s, evs[..|evs| - 1]);
      SentGrows(Run(s, evs[..|evs| - 1]), evs[|evs| - 1]);
    }
  }

  lemma {:induction false} MoveOne(c: Setup, net: Net, a: Address, evs: seq<Event>, ms: set<Message>)
    requires Happens(c, net) && a in net && AllAllowed(c.Rules(), net[a], evs) && Uses(evs, ms) && Out(net, ms)
    ensures Happens(c, net[a := Run(net[a], evs)])
  {
    if evs == [] {
      assert net[a := net[a]] == net;
    } else {
      var prefix, ev := evs[..|evs| - 1], evs[|evs| - 1];
      MoveOne(c, net, a, prefix, ms);
      RunSentGrows(net[a], prefix);
      var net' := net[a := Run(net[a], prefix)];
      assert ev in evs && Out(net', ms);
      HappensNext(c, net', Move(a, ev));
      assert NetNext(net', Move(a, ev)) == net[a := Run(net[a], evs)];
    }
  }

  /** The events lead the validator to where we want it, with these messages. */
  ghost predicate Way(c: Setup, s: Node, ms: set<Message>, goal: Node -> bool, evs: seq<Event>) {
    AllAllowed(c.Rules(), s, evs) && Uses(evs, ms) && goal(Run(s, evs))
  }

  ghost predicate CanGo(c: Setup, s: Node, ms: set<Message>, goal: Node -> bool) {
    exists evs :: Way(c, s, ms, goal, evs)
  }

  lemma {:induction false} MoveEach(c: Setup, net: Net, members: set<Address>, ms: set<Message>, goal: Node -> bool)
      returns (net': Net)
    requires Happens(c, net) && Out(net, ms)
    requires forall a :: a in members ==> a in net && CanGo(c, net[a], ms, goal)
    ensures Happens(c, net') && net'.Keys == net.Keys && SentKept(net, net')
    ensures forall a :: a in net ==> if a in members then goal(net'[a]) else net'[a] == net[a]
    decreases members
  {
    if members == {} {
      net' := net;
    } else {
      var a :| a in members;
      var evs :| Way(c, net[a], ms, goal, evs);
      MoveOne(c, net, a, evs, ms);
      RunSentGrows(net[a], evs);
      net' := MoveEach(c, net[a := Run(net[a], evs)], members - {a}, ms, goal);
    }
  }

  // ----- Where the validators are -----

  /** A validator at this head and in this view, which has sealed these headers. */
  ghost predicate At(s: Node, vset: seq<Address>, head: Header, view: View, done: set<Header>) {
    && s.vset == vset && s.me in vset && s.head == head && s.view == view && view.sequence == head.number + 1
    && forall h :: h in done ==> h in s.seals
  }

  ghost predicate Ready(s: Node, vset: seq<Address>, head: Header, view: View, done: set<Header>) {
    At(s, vset, head, view, done) && Entering(s)
  }

  /** It counts the prepare messages for h, none so far. */
  ghost predicate Poised(s: Node, vset: seq<Address>, head: Header, view: View, h: Header, done: set<Header>) {
    && At(s, vset, head, view, done) && s.phase == Phase(ValidateState, false, false)
    && s.lock == Lock(Some(h), false) && s.msgs == NO_MSGS && Message(s.me, Prepare, view, None) in s.sent
  }

  /** It has sealed h and counts commit messages, none so far. */
  ghost predicate HasSealed(s: Node, vset: seq<Address>, head: Header, view: View, h: Header, done: set<Header>) {
    && At(s, vset, head, view, done) && s.phase == Phase(ValidateState, false, true) && s.lock == Lock(Some(h), true)
    && s.msgs.committed == map[] && s.msgs.rounds == map[] && h in s.seals
    && Message(s.me, Commit, view, Some(h)) in s.sent
  }

  /** It has asked for the round of its view and counts what others ask for, nothing so far. */
  ghost predicate HasAsked(s: Node, vset: seq<Address>, head: Header, view: View, done: set<Header>) {
    && At(s, vset, head, view, done) && s.phase == Phase(RoundChangeState, true, false) && s.lock == Lock(None, false)
    && RoundTally(s) == map[] && Message(s.me, RoundChange, view, None) in s.sent
  }

  // The same as goals.

  ghost function ToReady(vset: seq<Address>, head: Header, view: View, done: set<Header>): Node -> bool {
    (s: Node) => Ready(s, vset, head, view, done)
  }

  ghost function ToPoised(vset: seq<Address>, head: Header, view: View, h: Header, done: set<Header>): Node -> bool {
    (s: Node) => Poised(s, vset, head, view, h, done)
  }

  ghost function ToSealed(vset: seq<Address>, head: Header, view: View, h: Header, done: set<Header>): Node -> bool {
    (s: Node) => HasSealed(s, vset, head, view, h, done)
  }

  ghost function ToAsked(vset: seq<Address>, head: Header, view: View, done: set<Header>): Node -> bool {
    (s: Node) => HasAsked(s, vset, head, view, done)
  }

  /** The votes of a quorum are out if its honest members have sent them. */
  lemma VotesOut(net: Net, typ: MsgType, view: View, proposal: Option<Header>, bad: set<Address>, senders: seq<Address>)
    requires forall a :: a in senders && a in net ==> a !in bad && Message(a, typ, view, proposal) in net[a].sent
    ensures Out(net, Votes(typ, view, proposal, bad, senders))
  {
  }

  // ----- What one validator can do -----

  lemma GoReady(c: Setup, a: Address)
    requires a in c.vset
    ensures CanGo(c, InitialNode(c.vset, a, c.genesis), {},
                  ToReady(c.vset, c.genesis, View(c.genesis.number + 1, 0), {}))
  {
    var s := InitialNode(c.vset, a, c.genesis);
    var evs := CanStart(c.Rules(), s);
    assert Way(c, s, {}, ToReady(c.vset, c.genesis, View(c.genesis.number + 1, 0), {}), evs);
  }

  lemma GoPoised(c: Setup, s: Node, head: Header, view: View, h: Header, done: set<Header>)
    requires Ready(s, c.vset, head, view, done) && CalcProposer(c.vset, c.seed(head)) != s.me
    requires h.number == view.sequence || c.heightUnchecked
    ensures CanGo(c, s, {Message(CalcProposer(c.vset, c.seed(head)), Preprepare, view, Some(h))},
                  ToPoised(c.vset, head, view, h, done))
  {
    var evs := CanTake(c.Rules(), s, h);
    var ms := {Message(CalcProposer(c.vset, c.seed(head)), Preprepare, view, Some(h))};
    assert Way(c, s, ms, ToPoised(c.vset, head, view, h, done), evs);
  }

  lemma GoSealed(c: Setup, s: Node, head: Header, view: View, h: Header, done: set<Header>, quorum: seq<Address>)
    requires Poised(s, c.vset, head, view, h, done) && Enough(s, quorum)
    ensures CanGo(c, s, Votes(Prepare, view, None, {}, quorum),
                  ToSealed(c.vset, head, view, h, done))
  {
    var evs := CanPrepare(c.Rules(), s, quorum, 0);
    var t := Run(s, evs);
    assert t.seals[|s.seals|] == h;
    assert Way(c, s, Votes(Prepare, view, None, {}, quorum), ToSealed(c.vset, head, view, h, done), evs);
  }

  lemma CommitVotes(c: Setup, s: Node, head: Header, view: View, h: Header, done: set<Header>,
                    bad: set<Address>, quorum: seq<Address>)
      returns (evs: seq<Event>)
    requires HasSealed(s, c.vset, head, view, h, done) && Enough(s, quorum)
    ensures AllAllowed(c.Rules(), s, evs) && Uses(evs, Votes(Commit, view, Some(h), bad, quorum))
    ensures Run(s, evs) == Inserting(s, h, bad, quorum)
  {
    assert CommitTally(view, h, bad, quorum[..0]) == map[];
    evs := CanCommit(c.Rules(), s, h, bad, quorum, 0);
  }

  /** A bad seal among the tallied ones: the write fails, and the lock is gone. */
  lemma GoAsked(c: Setup, s: Node, head: Header, view: View, h: Header, done: set<Header>,
                bad: set<Address>, quorum: seq<Address>, a: Address)
    requires HasSealed(s, c.vset, head, view, h, done) && Enough(s, quorum) && c.writeMayFail
    requires a in quorum && a in bad
    ensures CanGo(c, s, Votes(Commit, view, Some(h), bad, quorum),
                  ToAsked(c.vset, head, View(view.sequence, view.round + 1), done + {h}))
  {
    var evs := CommitVotes(c, s, head, view, h, done, bad, quorum);
    BadSeal(c.Rules(), view, h, bad, quorum, a);
    var more := CanFail(c.Rules(), Run(s, evs));
    Join(c.Rules(), s, evs, more);
    assert Way(c, s, Votes(Commit, view, Some(h), bad, quorum),
               ToAsked(c.vset, head, View(view.sequence, view.round + 1), done + {h}), evs + more);
  }

  lemma GoHigher(c: Setup, s: Node, head: Header, view: View, h: Header, done: set<Header>, quorum: seq<Address>)
    requires HasSealed(s, c.vset, head, view, h, done) && Enough(s, quorum) && c.valid(h) && h.number > head.number
    ensures CanGo(c, s, Votes(Commit, view, Some(h), {}, quorum),
                  ToReady(c.vset, h, View(h.number + 1, 0), done + {h}))
  {
    var evs := CommitVotes(c, s, head, view, h, done, {}, quorum);
    var more := CanGrow(c.Rules(), Run(s, evs));
    Join(c.Rules(), s, evs, more);
    assert Way(c, s, Votes(Commit, view, Some(h), {}, quorum),
               ToReady(c.vset, h, View(h.number + 1, 0), done + {h}), evs + more);
  }

  lemma GoRound(c: Setup, s: Node, head: Header, view: View, done: set<Header>, senders: seq<Address>)
    requires HasAsked(s, c.vset, head, view, done) && Distinct(senders) && |senders| == s.NumValid() > 0
    requires forall a :: a in senders ==> a in c.vset
    ensures CanGo(c, s, Votes(RoundChange, view, None, {}, senders), ToReady(c.vset, head, view, done))
  {
    var evs := CanChangeRound(c.Rules(), s, senders, 0);
    assert Way(c, s, Votes(RoundChange, view, None, {}, senders), ToReady(c.vset, head, view, done), evs);
  }

  // ----- All of them together -----

  /** The honest validators go by their addresses. */
  ghost predicate Named(c: Setup, net: Net) {
    forall a :: a in net ==> net[a].me == a && net[a].vset == c.vset && a in c.vset
  }

  lemma HappensNamed(c: Setup, net: Net)
    requires Happens(c, net)
    ensures Named(c, net) && net.Keys == Elements(c.vset) - c.faulty
  {
    HonestHappens(c, net);
  }

  ghost predicate All(net: Net, members: set<Address>, goal: Node -> bool) {
    forall a :: a in members ==> a in net && goal(net[a])
  }

  ghost predicate Quorate(c: Setup, quorum: seq<Address>) {
    Distinct(quorum) && |quorum| == 2 * MaxFaultyNodes(|c.vset|) + 1 && forall a :: a in quorum ==> a in c.vset
  }

  lemma StartReady(c: Setup) returns (net: Net)
    requires |c.faulty| <= MaxFaultyNodes(|c.vset|)
    ensures Happens(c, net) && All(net, net.Keys, ToReady(c.vset, c.genesis, View(c.genesis.number + 1, 0), {}))
  {
    net := Start(c);
    assert AllPossible(c, []) && net == NetRun(c, []);
    forall a | a in net ensures CanGo(c, net[a], {}, ToReady(c.vset, c.genesis, View(c.genesis.number + 1, 0), {})) {
      GoReady(c, a);
    }
    net := MoveEach(c, net, net.Keys, {}, ToReady(c.vset, c.genesis, View(c.genesis.number + 1, 0), {}));
  }

  /** They take h from the proposer, who has sent it or is faulty. */
  lemma TakeAll(c: Setup, net: Net, members: set<Address>, head: Header, view: View, h: Header, done: set<Header>)
      returns (net': Net)
    requires Happens(c, net) && All(net, members, ToReady(c.vset, head, view, done)) && c.vset != []
    requires h.number == view.sequence || c.heightUnchecked
    requires CalcProposer(c.vset, c.seed(head)) !in members
    requires Out(net, {Message(CalcProposer(c.vset, c.seed(head)), Preprepare, view, Some(h))})
    ensures Happens(c, net') && net'.Keys == net.Keys && SentKept(net, net')
    ensures All(net', members, ToPoised(c.vset, head, view, h, done))
    ensures forall a :: a in net && a !in members ==> net'[a] == net[a]
  {
    HappensNamed(c, net);
    var ms := {Message(CalcProposer(c.vset, c.seed(head)), Preprepare, view, Some(h))};
    var goal := ToPoised(c.vset, head, view, h, done);
    forall a | a in members ensures CanGo(c, net[a], ms, goal) {
      GoPoised(c, net[a], head, view, h, done);
    }
    net' := MoveEach(c, net, members, ms, goal);
  }

  /** They seal h, for which a quorum has sent prepare messages. */
  lemma SealAll(c: Setup, net: Net, members: set<Address>, head: Header, view: View, h: Header, done: set<Header>,
                quorum: seq<Address>)
      returns (net': Net)
    requires Happens(c, net) && All(net, members, ToPoised(c.vset, head, view, h, done)) && Quorate(c, quorum)
    requires Out(net, Votes(Prepare, view, None, {}, quorum))
    ensures Happens(c, net') && net'.Keys == net.Keys && SentKept(net, net')
    ensures All(net', members, ToSealed(c.vset, head, view, h, done))
    ensures forall a :: a in net && a !in members ==> net'[a] == net[a]
  {
    var ms, goal := Votes(Prepare, view, None, {}, quorum), ToSealed(c.vset, head, view, h, done);
    forall a | a in members ensures CanGo(c, net[a], ms, goal) {
      GoSealed(c, net[a], head, view, h, done, quorum);
    }
    net' := MoveEach(c, net, members, ms, goal);
  }

  /** All honest validators take h and seal it. */
  lemma TakeAndSeal(c: Setup, net: Net, head: Header, view: View, h: Header, done: set<Header>, quorum: seq<Address>)
      returns (net': Net)
    requires Happens(c, net) && All(net, net.Keys, ToReady(c.vset, head, view, done)) && Quorate(c, quorum)
    requires h.number == view.sequence || c.heightUnchecked
    requires c.vset != [] && CalcProposer(c.vset, c.seed(head)) !in net
    ensures Happens(c, net') && All(net', net'.Keys, ToSealed(c.vset, head, view, h, done))
  {
    net' := TakeAll(c, net, net.Keys, head, view, h, done);
    HappensNamed(c, net');
    VotesOut(net', Prepare, view, None, {}, quorum);
    net' := SealAll(c, net', net'.Keys, head, view, h, done, quorum);
  }

  /** One of the commit messages carries a bad seal: all writes fail, and all go on to the next round unlocked. */
  lemma FailAll(c: Setup, net: Net, head: Header, view: View, h: Header, done: set<Header>, quorum: seq<Address>,
                p: Address)
      returns (net': Net)
    requires Happens(c, net) && All(net, net.Keys, ToSealed(c.vset, head, view, h, done)) && c.writeMayFail
    requires Quorate(c, quorum) && p in quorum && p !in net
    ensures Happens(c, net')
    ensures All(net', net'.Keys, ToAsked(c.vset, head, View(view.sequence, view.round + 1), done + {h}))
  {
    HappensNamed(c, net);
    var ms := Votes(Commit, view, Some(h), {p}, quorum);
    var goal := ToAsked(c.vset, head, View(view.sequence, view.round + 1), done + {h});
    VotesOut(net, Commit, view, Some(h), {p}, quorum);
    forall a | a in net ensures CanGo(c, net[a], ms, goal) {
      GoAsked(c, net[a], head, view, h, done, {p}, quorum, p);
    }
    net' := MoveEach(c, net, net.Keys, ms, goal);
  }

  lemma RoundAll(c: Setup, net: Net, head: Header, view: View, done: set<Header>, senders: seq<Address>)
      returns (net': Net)
    requires Happens(c, net) && All(net, net.Keys, ToAsked(c.vset, head, view, done))
    requires Distinct(senders) && |senders| == 2 * MaxFaultyNodes(|c.vset|) > 0
    requires forall a :: a in senders ==> a in c.vset
    ensures Happens(c, net') && All(net', net'.Keys, ToReady(c.vset, head, view, done))
  {
    HappensNamed(c, net);
    var ms, goal := Votes(RoundChange, view, None, {}, senders), ToReady(c.vset, head, view, done);
    VotesOut(net, RoundChange, view, None, {}, senders);
    forall a | a in net ensures CanGo(c, net[a], ms, goal) {
      GoRound(c, net[a], head, view, done, senders);
    }
    net' := MoveEach(c, net, net.Keys, ms, goal);
  }

  /** All insert h and go on to the next height. */
  lemma GrowAll(c: Setup, net: Net, head: Header, view: View, h: Header, done: set<Header>, quorum: seq<Address>)
      returns (net': Net)
    requires Happens(c, net) && All(net, net.Keys, ToSealed(c.vset, head, view, h, done)) && c.valid(h)
    requires Quorate(c, quorum) && h.number > head.number
    ensures Happens(c, net') && All(net', net'.Keys, ToReady(c.vset, h, View(h.number + 1, 0), done + {h}))
  {
    HappensNamed(c, net);
    var ms, goal := Votes(Commit, view, Some(h), {}, quorum), ToReady(c.vset, h, View(h.number + 1, 0), done + {h});
    VotesOut(net, Commit, view, Some(h), {}, quorum);
    forall a | a in net ensures CanGo(c, net[a], ms, goal) {
      GoHigher(c, net[a], head, view, h, done, quorum);
    }
    net' := MoveEach(c, net, net.Keys, ms, goal);
  }

  // ----- Whole runs -----

  lemma {:induction false} SetToSeq(s: set<Address>) returns (q: seq<Address>)
    ensures Distinct(q) && |q| == |s| && Elements(q) == s
  {
    if s == {} {
      q := [];
    } else {
      var x :| x in s;
      var t := SetToSeq(s - {x});
      q := t + [x];
      assert forall y :: y in q <==> y in t || y == x;
    }
  }

  /** The honest validators are enough for a quorum. */
  lemma HonestQuorum(c: Setup) returns (q: seq<Address>)
    requires Distinct(c.vset) && c.vset != [] && |c.faulty| <= MaxFaultyNodes(|c.vset|)
    ensures Quorate(c, q) && forall a :: a in q ==> a !in c.faulty
  {
    DistinctCardinality(c.vset);
    var honest := SetToSeq(Elements(c.vset) - c.faulty);
    q := honest[..2 * MaxFaultyNodes(|c.vset|) + 1];
    forall a | a in q ensures a in c.vset && a !in c.faulty {
      assert a in Elements(honest);
    }
  }

  function FirstView(c: Setup): View {
    View(c.genesis.number + 1, 0)
  }

  function FirstProposer(c: Setup): Address
    requires c.vset != []
  {
    CalcProposer(c.vset, c.seed(c.genesis))
  }

  ghost predicate SealedByAll(net: Net, h: Header) {
    forall a :: a in net ==> h in net[a].seals
  }

  /** The drawn proposer alone is faulty. All honest validators seal its first block; its commit message with a bad
      seal makes every write fail after the unlock; in the next round all seal its second block. */
  lemma FailedWritesFork(c: Setup, h1: Header, h2: Header) returns (net: Net)
    requires Distinct(c.vset) && MaxFaultyNodes(|c.vset|) > 0 && c.faulty == {FirstProposer(c)} && c.writeMayFail
    requires h1.number == h2.number == c.genesis.number + 1
    ensures Happens(c, net) && SealedByAll(net, h1) && SealedByAll(net, h2)
  {
    var p, f := FirstProposer(c), MaxFaultyNodes(|c.vset|);
    var q := HonestQuorum(c);
    net := StartReady(c);
    HappensNamed(c, net);
    net := TakeAndSeal(c, net, c.genesis, FirstView(c), h1, {}, q);
    HappensNamed(c, net);
    net := FailAll(c, net, c.genesis, FirstView(c), h1, {}, q[..2 * f] + [p], p);
    var view := View(FirstView(c).sequence, 1);
    net := RoundAll(c, net, c.genesis, view, {} + {h1}, q[..2 * f]);
    HappensNamed(c, net);
    net := TakeAndSeal(c, net, c.genesis, view, h2, {} + {h1}, q);
  }

  ghost function ToOffered(c: Setup, h: Header): Node -> bool {
    (s: Node) => && Poised(s, c.vset, c.genesis, FirstView(c), h, {})
                 && Message(s.me, Preprepare, FirstView(c), Some(h)) in s.sent
  }

  lemma GoOffered(c: Setup, s: Node, digest: nat)
    requires Ready(s, c.vset, c.genesis, FirstView(c), {}) && FirstProposer(c) == s.me
    requires CanBuild(c, digest)
    ensures CanGo(c, s, {}, ToOffered(c, Header(c.genesis.number + 1, digest)))
  {
    var evs := CanPropose(c.Rules(), s, digest);
    assert Way(c, s, {}, ToOffered(c, Header(c.genesis.number + 1, digest)), evs);
  }

  /** The honest proposer builds a valid block and sends it, and the others take it. */
  lemma OfferAll(c: Setup, net: Net, digest: nat) returns (net': Net)
    requires Happens(c, net) && All(net, net.Keys, ToReady(c.vset, c.genesis, FirstView(c), {}))
    requires c.vset != [] && FirstProposer(c) in net && CanBuild(c, digest)
    ensures Happens(c, net') && net'.Keys == net.Keys
    ensures All(net', net'.Keys, ToPoised(c.vset, c.genesis, FirstView(c), Header(c.genesis.number + 1, digest), {}))
  {
    var p, h := FirstProposer(c), Header(c.genesis.number + 1, digest);
    HappensNamed(c, net);
    GoOffered(c, net[p], digest);
    net' := MoveEach(c, net, {p}, {}, ToOffered(c, h));
    HappensNamed(c, net');
    assert ToOffered(c, h)(net'[p]);
    net' := TakeAll(c, net', net'.Keys - {p}, c.genesis, FirstView(c), h, {});
  }

  /** All honest validators come to seal a block of the first height: a valid one, if the proposer is honest. */
  lemma FirstSealed(c: Setup, digest: nat, quorum: seq<Address>) returns (net: Net)
    requires c.vset != [] && |c.faulty| <= MaxFaultyNodes(|c.vset|) && Quorate(c, quorum)
    requires FirstProposer(c) in c.faulty || CanBuild(c, digest)
    ensures Happens(c, net)
    ensures All(net, net.Keys, ToSealed(c.vset, c.genesis, FirstView(c), Header(c.genesis.number + 1, digest), {}))
  {
    var h := Header(c.genesis.number + 1, digest);
    net := StartReady(c);
    HappensNamed(c, net);
    if FirstProposer(c) in c.faulty {
      net := TakeAndSeal(c, net, c.genesis, FirstView(c), h, {}, quorum);
    } else {
      net := OfferAll(c, net, digest);
      HappensNamed(c, net);
      VotesOut(net, Prepare, FirstView(c), None, {}, quorum);
      net := SealAll(c, net, net.Keys, c.genesis, FirstView(c), h, {}, quorum);
    }
  }

  /** The proposer drawn on top of h alone is faulty. All honest validators insert h, and at the next height seal
      another header of the height of h, which that proposer sends. */
  lemma UncheckedHeightsFork(c: Setup, digest: nat, h2: Header) returns (net: Net)
    requires Distinct(c.vset) && MaxFaultyNodes(|c.vset|) > 0 && c.heightUnchecked
    requires CanBuild(c, digest)
    requires c.faulty == {CalcProposer(c.vset, c.seed(Header(c.genesis.number + 1, digest)))}
    ensures Happens(c, net) && SealedByAll(net, Header(c.genesis.number + 1, digest)) && SealedByAll(net, h2)
  {
    var h := Header(c.genesis.number + 1, digest);
    var q := HonestQuorum(c);
    net := FirstSealed(c, digest, q);
    net := GrowAll(c, net, c.genesis, FirstView(c), h, {}, q);
    HappensNamed(c, net);
    net := TakeAndSeal(c, net, h, View(h.number + 1, 0), h2, {} + {h}, q);
  }

  /** A faulty proposer sends one block to some and another to others. */
  lemma SplitProposal(c: Setup, left: set<Address>, right: set<Address>, h1: Header, h2: Header) returns (net: Net)
    requires c.vset != [] && |c.faulty| <= MaxFaultyNodes(|c.vset|) && FirstProposer(c) in c.faulty
    requires h1.number == h2.number == c.genesis.number + 1
    requires left !! right && forall x :: x in left || x in right ==> x in c.vset && x !in c.faulty
    ensures Happens(c, net)
    ensures All(net, left, ToPoised(c.vset, c.genesis, FirstView(c), h1, {}))
    ensures All(net, right, ToPoised(c.vset, c.genesis, FirstView(c), h2, {}))
  {
    net := StartReady(c);
    HappensNamed(c, net);
    net := TakeAll(c, net, left, c.genesis, FirstView(c), h1, {});
    HappensNamed(c, net);
    net := TakeAll(c, net, right, c.genesis, FirstView(c), h2, {});
  }

  /** Each of the honest validators of a side has sealed its header. */
  ghost predicate SealedBy(net: Net, members: set<Address>, h: Header) {
    forall a :: a in members ==> a in net && h in net[a].seals
  }

  /** Quorums whose common members are all faulty: the prepare messages of each make its honest members seal. */
  lemma QuorumsFork(c: Setup, a: seq<Address>, b: seq<Address>, h1: Header, h2: Header) returns (net: Net)
    requires c.vset != [] && |c.faulty| <= MaxFaultyNodes(|c.vset|) && FirstProposer(c) in c.faulty
    requires h1.number == h2.number == c.genesis.number + 1 && Quorate(c, a) && Quorate(c, b)
    requires forall x :: x in a && x in b ==> x in c.faulty
    ensures Happens(c, net) && SealedBy(net, Elements(a) - c.faulty, h1) && SealedBy(net, Elements(b) - c.faulty, h2)
  {
    var left, right := Elements(a) - c.faulty, Elements(b) - c.faulty;
    net := SplitProposal(c, left, right, h1, h2);
    HappensNamed(c, net);
    VotesOut(net, Prepare, FirstView(c), None, {}, a);
    net := SealAll(c, net, left, c.genesis, FirstView(c), h1, {}, a);
    HappensNamed(c, net);
    VotesOut(net, Prepare, FirstView(c), None, {}, b);
    net := SealAll(c, net, right, c.genesis, FirstView(c), h2, {}, b);
  }

  // ----- Seals of such runs -----

  /** The seal of an honest node is good for the headers the node sealed, that of a faulty one for any. */
  function RecoverIn(faulty: set<Address>, net: Net): (Seal, Header) -> Option<Address> {
    (seal: Seal, h: Header) =>
      if seal in faulty || (seal in net && h in net[seal].seals) then Some(seal) else None
  }

  lemma QuorumCommits(c: Setup, faulty: set<Address>, net: Net, h: Header, quorum: seq<Address>)
    requires Quorate(c, quorum)
    requires forall a :: a in quorum ==> a in faulty || (a in net && h in net[a].seals)
    ensures Committed(c.vset, RecoverIn(faulty, net), quorum, h)
  {
    var recover := RecoverIn(faulty, net);
    forall i | 0 <= i < |quorum| ensures recover(quorum[i], h) == Some(quorum[i]) {
      assert quorum[i] in quorum;
    }
    forall i | 0 <= i < |quorum| ensures GoodSeal(c.vset, recover, quorum, h, i) {
      assert quorum[i] in quorum;
    }
  }

  /** With no more than F validators faulty, and silent, and an honest proposer, any block it builds can be
      committed, by seals of honest validators alone. */
  lemma CommitPossible(c: Setup, digest: nat) returns (net: Net, seals: seq<Seal>)
    requires Distinct(c.vset) && c.vset != [] && |c.faulty| <= MaxFaultyNodes(|c.vset|)
    requires FirstProposer(c) !in c.faulty && CanBuild(c, digest)
    ensures Happens(c, net) && Genuine(net, RecoverIn({}, net))
    ensures Committed(c.vset, RecoverIn({}, net), seals, Header(c.genesis.number + 1, digest))
  {
    seals := HonestQuorum(c);
    net := FirstSealed(c, digest, seals);
    HappensNamed(c, net);
    QuorumCommits(c, {}, net, Header(c.genesis.number + 1, digest), seals);
  }
}
