/** How a PVBFT node changes rounds: what the round change messages it reads make of its round, and why it leaves a
    round. */
module Rounds {
  import opened Types
  import opened MsgQueues
  import opened Quorum
  import opened Pvbft
  import opened Sums

  // ----- Votes that were read -----

  /** A vote of that type for the view. */
  predicate IsVote(m: Message, a: Address, typ: MsgType, view: View) {
    m.from == a && m.typ == typ && m.view == view
  }

  /** The last vote of a among the messages. */
  function LastVote(ms: seq<Message>, a: Address, typ: MsgType, view: View): (r: Option<Message>)
    ensures r.Some? <==> exists i :: 0 <= i < |ms| && IsVote(ms[i], a, typ, view)
    ensures r.Some? ==> IsVote(r.value, a, typ, view) && r.value in ms
  {
    if ms == [] then None
    else
      var n := |ms| - 1;
      if IsVote(ms[n], a, typ, view) then Some(ms[n]) else LastVote(ms[..n], a, typ, view)
  }

  /** The tally holds the last vote of each validator that voted. */
  ghost predicate LastVotes(t: Tally, vset: seq<Address>, ms: seq<Message>, typ: MsgType, view: View) {
    forall a :: if a in vset && LastVote(ms, a, typ, view).Some? then a in t && Some(t[a]) == LastVote(ms, a, typ, view)
                else a !in t
  }

  function AllTallied(t: RoundMsgs, vset: seq<Address>, ms: seq<Message>): RoundMsgs {
    if ms == [] then t else Tallied(AllTallied(t, vset, ms[..|ms| - 1]), vset, ms[|ms| - 1])
  }

  function RoundVotes(t: RoundMsgs, round: nat): Tally {
    if round in t.rounds then t.rounds[round] else map[]
  }

  /** Starting from empty tallies, they are the last votes for each view of the sequence: prepare and commit messages
      of the current view, round change messages of any round. */
  lemma {:induction false} TalliesAreLastVotes(vset: seq<Address>, ms: seq<Message>, view: View)
    requires forall m :: m in ms ==> m.view.sequence == view.sequence && (m.typ != RoundChange ==> m.view == view)
    ensures var t := AllTallied(NO_MSGS, vset, ms);
      && LastVotes(t.prepared, vset, ms, Prepare, view)
      && LastVotes(t.committed, vset, ms, Commit, view)
      && forall r: nat :: LastVotes(RoundVotes(t, r), vset, ms, RoundChange, View(view.sequence, r))
  {
    if ms != [] {
      var n := |ms| - 1;
      assert forall m :: m in ms[..n] ==> m in ms;
      TalliesAreLastVotes(vset, ms[..n], view);
      assert ms[n] in ms;
      OneMoreVote(vset, ms, view, AllTallied(NO_MSGS, vset, ms[..n]));
    }
  }

  lemma VoteAdded(t: Tally, vset: seq<Address>, ms: seq<Message>, typ: MsgType, view: View)
    requires ms != [] && LastVotes(t, vset, ms[..|ms| - 1], typ, view)
    ensures var m := ms[|ms| - 1];
      LastVotes(if m.from in vset && m.typ == typ && m.view == view then t[m.from := m] else t, vset, ms, typ, view)
  {
  }

  lemma OneMoreVote(vset: seq<Address>, ms: seq<Message>, view: View, t: RoundMsgs)
    requires ms != [] && ms[|ms| - 1].view.sequence == view.sequence
    requires ms[|ms| - 1].typ != RoundChange ==> ms[|ms| - 1].view == view
    requires LastVotes(t.prepared, vset, ms[..|ms| - 1], Prepare, view)
    requires LastVotes(t.committed, vset, ms[..|ms| - 1], Commit, view)
    requires forall r: nat :: LastVotes(RoundVotes(t, r), vset, ms[..|ms| - 1], RoundChange, View(view.sequence, r))
    ensures var t' := Tallied(t, vset, ms[|ms| - 1]);
      && LastVotes(t'.prepared, vset, ms, Prepare, view)
      && LastVotes(t'.committed, vset, ms, Commit, view)
      && forall r: nat :: LastVotes(RoundVotes(t', r), vset, ms, RoundChange, View(view.sequence, r))
  {
    var t' := Tallied(t, vset, ms[|ms| - 1]);
    VoteAdded(t.prepared, vset, ms, Prepare, view);
    VoteAdded(t.committed, vset, ms, Commit, view);
    forall r: nat ensures LastVotes(RoundVotes(t', r), vset, ms, RoundChange, View(view.sequence, r)) {
      VoteAdded(RoundVotes(t, r), vset, ms, RoundChange, View(view.sequence, r));
      RoundVotesAdded(t, vset, ms[|ms| - 1], r);
    }
  }

  lemma RoundVotesAdded(t: RoundMsgs, vset: seq<Address>, m: Message, r: nat)
    ensures RoundVotes(Tallied(t, vset, m), r) ==
      if m.typ == RoundChange && m.from in vset && m.view.round == r then RoundVotes(t, r)[m.from := m]
      else RoundVotes(t, r)
  {
  }

  // ----- The loop of runRoundChangeState -----

  ghost predicate InLoop(s: Node) {
    s.phase == Phase(RoundChangeState, true, false)
  }

  /** The node reads these messages and nothing else happens. */
  ghost function After(s: Node, ms: seq<Message>): Node {
    if ms == [] then s else Next(After(s, ms[..|ms| - 1]), Read(ms[|ms| - 1], Verified))
  }

  predicate Asks(vset: seq<Address>, m: Message, view: View) {
    m.typ == RoundChange && m.view == view && m.from in vset
  }

  /** The validators that ask for the round of the view. */
  function Askers(vset: seq<Address>, ms: seq<Message>, view: View): set<Address> {
    if ms == [] then {}
    else
      var n := |ms| - 1;
      Askers(vset, ms[..n], view) + if Asks(vset, ms[n], view) then {ms[n].from} else {}
  }

  lemma AskersMore(vset: seq<Address>, ms: seq<Message>, m: Message, view: View)
    ensures Askers(vset, ms + [m], view) == Askers(vset, ms, view) + if Asks(vset, m, view) then {m.from} else {}
  {
    assert (ms + [m])[..|ms|] == ms;
  }

  lemma {:induction false} AskersJoin(vset: seq<Address>, ms: seq<Message>, more: seq<Message>, view: View)
    ensures Askers(vset, ms + more, view) == Askers(vset, ms, view) + Askers(vset, more, view)
  {
    if more == [] {
      assert ms + more == ms;
    } else {
      var n := |more| - 1;
      AskersJoin(vset, ms, more[..n], view);
      AskersMore(vset, ms + more[..n], more[n], view);
      assert ms + more[..n] + [more[n]] == ms + more;
    }
  }

  ghost predicate HasAsked(s: Node, r: nat) {
    Message(s.me, RoundChange, View(s.view.sequence, r), None) in s.sent
  }

  /** The votes for the rounds above that of the view are those that were read. */
  ghost predicate AboveRead(t: RoundMsgs, vset: seq<Address>, ms: seq<Message>, view: View) {
    forall r: nat :: r > view.round ==> RoundVotes(t, r).Keys == Askers(vset, ms, View(view.sequence, r))
  }

  /** No round above that of the view has more than f votes. */
  ghost predicate AboveFew(t: RoundMsgs, view: View, f: nat) {
    forall r: nat :: r > view.round ==> |RoundVotes(t, r).Keys| <= f
  }

  /** The votes for the round of the view are those that were read. */
  ghost predicate OwnRead(t: RoundMsgs, vset: seq<Address>, ms: seq<Message>, view: View) {
    RoundVotes(t, view.round).Keys == Askers(vset, ms, view)
  }

  /** Where the loop is after the messages: k of them were read when the node last moved to another round, and the
      votes for its round are the ones after that. */
  ghost predicate Tracked(s: Node, ms: seq<Message>, t: Node, k: nat) {
    && k <= |ms| && InLoop(t) && t.vset == s.vset && t.me == s.me && t.view.sequence == s.view.sequence
    && AboveRead(t.msgs, s.vset, ms, t.view) && AboveFew(t.msgs, t.view, MaxFaultyNodes(|s.vset|))
    && OwnRead(t.msgs, s.vset, ms[k..], t.view)
    && (s.NumValid() > 0 ==> |RoundVotes(t.msgs, t.view.round).Keys| < s.NumValid())
    && Arrived(s, ms[..k], t)
  }

  /** It is in its first round, or in one that F + 1 validators asked for, and has asked for it too. */
  ghost predicate Arrived(s: Node, ms: seq<Message>, t: Node) {
    if ms == [] then t.view.round == s.view.round
    else && t.view.round > s.view.round && HasAsked(t, t.view.round)
         && |Askers(s.vset, ms, t.view)| == MaxFaultyNodes(|s.vset|) + 1
  }

  /** It has entered a round that 2F validators asked for. */
  ghost predicate HasEntered(s: Node, ms: seq<Message>, t: Node) {
    && t.phase == Phase(AcceptState, false, false) && t.view.sequence == s.view.sequence && t.view.round >= s.view.round
    && s.NumValid() > 0 && |Askers(s.vset, ms, t.view)| >= s.NumValid()
  }

  lemma NotAsking(t: Node, m: Message, r: nat)
    requires InLoop(t) && !Readable(t, m) && r >= t.view.round
    ensures !Asks(t.vset, m, View(t.view.sequence, r))
  {
    DeliverableView(RoundChangeState, m, t.view);
  }

  /** A message that is stale, of a later sequence or of another kind changes nothing. */
  lemma Unread(s: Node, ms: seq<Message>, m: Message, t: Node, k: nat)
    requires Tracked(s, ms, t, k) && !Readable(t, m)
    ensures Tracked(s, ms + [m], t, k)
  {
    forall r: nat | r > t.view.round
      ensures RoundVotes(t.msgs, r).Keys == Askers(s.vset, ms + [m], View(t.view.sequence, r))
    {
      NotAsking(t, m, r);
      AskersMore(s.vset, ms, m, View(t.view.sequence, r));
    }
    NotAsking(t, m, t.view.round);
    AskersMore(s.vset, ms[k..], m, t.view);
    assert (ms + [m])[k..] == ms[k..] + [m] && (ms + [m])[..k] == ms[..k];
  }

  /** Counting one more round change message. */
  lemma AboveCounted(t: RoundMsgs, vset: seq<Address>, ms: seq<Message>, m: Message, view: View)
    requires AboveRead(t, vset, ms, view) && m.typ == RoundChange && m.view.sequence == view.sequence
    ensures AboveRead(Tallied(t, vset, m), vset, ms + [m], view)
  {
    forall r: nat | r > view.round
      ensures RoundVotes(Tallied(t, vset, m), r).Keys == Askers(vset, ms + [m], View(view.sequence, r))
    {
      RoundVotesAdded(t, vset, m, r);
      AskersMore(vset, ms, m, View(view.sequence, r));
    }
  }

  lemma OwnCounted(t: RoundMsgs, vset: seq<Address>, ms: seq<Message>, m: Message, view: View)
    requires OwnRead(t, vset, ms, view) && m.typ == RoundChange && m.view.sequence == view.sequence
    ensures OwnRead(Tallied(t, vset, m), vset, ms + [m], view)
  {
    RoundVotesAdded(t, vset, m, view.round);
    AskersMore(vset, ms, m, view);
  }

  lemma OneMore(t: RoundMsgs, vset: seq<Address>, m: Message, r: nat)
    requires m.typ == RoundChange
    ensures var n, n' := |RoundVotes(t, r).Keys|, |RoundVotes(Tallied(t, vset, m), r).Keys|;
      n <= n' <= n + 1 && (r != m.view.round ==> n' == n) && (m.from in vset && r == m.view.round ==> n' > 0)
  {
    RoundVotesAdded(t, vset, m, r);
    if m.from in vset && r == m.view.round {
      assert m.from in RoundVotes(Tallied(t, vset, m), r).Keys;
    }
  }

  /** How many have asked for the round of m once it is counted. */
  function Count(t: Node, m: Message): nat {
    |RoundVotes(AddMessage(t, m).msgs, m.view.round).Keys|
  }

  lemma CountIsVotes(t: RoundMsgs, r: nat)
    ensures RoundCount(t.rounds, r) == |RoundVotes(t, r).Keys|
  {
  }

  /** What counting a readable message does to the votes. */
  lemma Counted(s: Node, ms: seq<Message>, m: Message, t: Node, k: nat)
    requires Tracked(s, ms, t, k) && Readable(t, m)
    ensures m.view.sequence == s.view.sequence && m.view.round >= t.view.round
    ensures var t1 := AddMessage(t, m);
      && t1 == t.(msgs := t1.msgs) && AboveRead(t1.msgs, s.vset, ms + [m], t.view)
      && OwnRead(t1.msgs, s.vset, (ms + [m])[k..], t.view)
  {
    DeliverableView(RoundChangeState, m, t.view);
    AboveCounted(t.msgs, s.vset, ms, m, t.view);
    OwnCounted(t.msgs, s.vset, ms[k..], m, t.view);
    assert (ms + [m])[k..] == ms[k..] + [m];
  }

  lemma CleanedVotes(t: RoundMsgs, round: nat, r: nat)
    ensures RoundVotes(t.(rounds := t.rounds - {round}), r) == if r == round then map[] else RoundVotes(t, r)
  {
  }

  lemma MovedVotes(t: RoundMsgs, vset: seq<Address>, ms: seq<Message>, m: Message, view: View, f: nat)
    requires AboveRead(t, vset, ms, view) && AboveFew(t, view, f)
    requires m.typ == RoundChange && m.view.sequence == view.sequence && m.view.round > view.round
    ensures var t1 := Tallied(t, vset, m);
      var t' := t1.(rounds := t1.rounds - {m.view.round});
      AboveRead(t', vset, ms + [m], m.view) && AboveFew(t', m.view, f) && RoundVotes(t', m.view.round) == map[]
  {
    var t1 := Tallied(t, vset, m);
    AboveCounted(t, vset, ms, m, view);
    forall r: nat | r > m.view.round
      ensures RoundVotes(t1.(rounds := t1.rounds - {m.view.round}), r) == RoundVotes(t1, r)
      ensures |RoundVotes(t1, r).Keys| <= f
    {
      CleanedVotes(t1, m.view.round, r);
      OneMore(t, vset, m, r);
    }
    CleanedVotes(t1, m.view.round, m.view.round);
  }

  /** F + 1 validators ask for a round above the node's own. */
  lemma Moves(s: Node, ms: seq<Message>, m: Message, t: Node, k: nat)
    requires Tracked(s, ms, t, k) && Readable(t, m) && m.view.round > t.view.round
    requires Count(t, m) == MaxFaultyNodes(|s.vset|) + 1
    ensures Tracked(s, ms + [m], SendRoundChange(AddMessage(t, m), m.view.round), |ms| + 1)
  {
    Counted(s, ms, m, t, k);
    MovedVotes(t.msgs, s.vset, ms, m, t.view, MaxFaultyNodes(|s.vset|));
    assert (ms + [m])[|ms| + 1..] == [] && (ms + [m])[..|ms| + 1] == ms + [m];
  }

  /** Too few ask for another round or enter the node's own. */
  lemma Stays(s: Node, ms: seq<Message>, m: Message, t: Node, k: nat)
    requires Tracked(s, ms, t, k) && Readable(t, m) && Count(t, m) != s.NumValid()
    requires m.view.round > t.view.round ==> Count(t, m) != MaxFaultyNodes(|s.vset|) + 1
    ensures Tracked(s, ms + [m], AddMessage(t, m), k)
  {
    Counted(s, ms, m, t, k);
    var t1 := AddMessage(t, m);
    forall r: nat | r > t.view.round ensures |RoundVotes(t1.msgs, r).Keys| <= MaxFaultyNodes(|s.vset|) {
      OneMore(t.msgs, t.vset, m, r);
    }
    OneMore(t.msgs, t.vset, m, t.view.round);
    assert (ms + [m])[..k] == ms[..k];
  }

  lemma {:induction false} AskersPart(vset: seq<Address>, ms: seq<Message>, k: nat, view: View)
    requires k <= |ms|
    ensures |Askers(vset, ms[..k], view)| <= |Askers(vset, ms, view)|
    ensures |Askers(vset, ms[k..], view)| <= |Askers(vset, ms, view)|
  {
    assert ms == ms[..k] + ms[k..];
    AskersJoin(vset, ms[..k], ms[k..], view);
    SubsetSize(Askers(vset, ms[..k], view), Askers(vset, ms, view));
    SubsetSize(Askers(vset, ms[k..], view), Askers(vset, ms, view));
  }

  lemma Enters(s: Node, ms: seq<Message>, m: Message, t: Node, k: nat)
    requires Tracked(s, ms, t, k) && Readable(t, m) && Count(t, m) == s.NumValid() > 0
    ensures HasEntered(s, ms + [m], AddMessage(t, m).(phase := Phase(AcceptState, false, false), view := m.view))
  {
    Counted(s, ms, m, t, k);
    if m.view.round == t.view.round {
      AskersPart(s.vset, ms + [m], k, m.view);
    }
  }

  lemma ReadEnters(t: Node, m: Message)
    requires InLoop(t) && Readable(t, m) && Count(t, m) == t.NumValid()
    ensures Next(t, Read(m, Verified)) == AddMessage(t, m).(phase := Phase(AcceptState, false, false), view := m.view)
  {
    CountIsVotes(AddMessage(t, m).msgs, m.view.round);
    DeliverableView(RoundChangeState, m, t.view);
  }

  lemma ReadMoves(t: Node, m: Message)
    requires InLoop(t) && Readable(t, m) && m.view.round > t.view.round
    requires Count(t, m) == MaxFaultyNodes(|t.vset|) + 1 != t.NumValid()
    ensures Next(t, Read(m, Verified)) == SendRoundChange(AddMessage(t, m), m.view.round)
  {
    CountIsVotes(AddMessage(t, m).msgs, m.view.round);
  }

  lemma ReadStays(t: Node, m: Message)
    requires InLoop(t) && Readable(t, m) && Count(t, m) != t.NumValid()
    requires m.view.round > t.view.round ==> Count(t, m) != MaxFaultyNodes(|t.vset|) + 1
    ensures Next(t, Read(m, Verified)) == AddMessage(t, m)
  {
    CountIsVotes(AddMessage(t, m).msgs, m.view.round);
    DeliverableView(RoundChangeState, m, t.view);
  }

  /** The node has entered a round, or is where the loop puts it. */
  ghost predicate Located(s: Node, ms: seq<Message>, t: Node) {
    HasEntered(s, ms, t) || exists k :: Tracked(s, ms, t, k)
  }

  lemma LocatedByEntry(s: Node, ms: seq<Message>, m: Message, t: Node, k: nat)
    requires Tracked(s, ms, t, k) && Readable(t, m) && Count(t, m) == s.NumValid() > 0
    ensures Located(s, ms + [m], Next(t, Read(m, Verified)))
  {
    ReadEnters(t, m);
    Enters(s, ms, m, t, k);
  }

  lemma LocatedByMove(s: Node, ms: seq<Message>, m: Message, t: Node, k: nat)
    requires Tracked(s, ms, t, k) && Readable(t, m) && m.view.round > t.view.round
    requires Count(t, m) == MaxFaultyNodes(|s.vset|) + 1 != s.NumValid()
    ensures Located(s, ms + [m], Next(t, Read(m, Verified)))
  {
    ReadMoves(t, m);
    Moves(s, ms, m, t, k);
  }

  lemma LocatedAsBefore(s: Node, ms: seq<Message>, m: Message, t: Node, k: nat)
    requires Tracked(s, ms, t, k) && Readable(t, m) && Count(t, m) != s.NumValid()
    requires m.view.round > t.view.round ==> Count(t, m) != MaxFaultyNodes(|s.vset|) + 1
    ensures Located(s, ms + [m], Next(t, Read(m, Verified)))
  {
    ReadStays(t, m);
    Stays(s, ms, m, t, k);
  }

  lemma ReadableStep(s: Node, ms: seq<Message>, m: Message, t: Node, k: nat)
    requires Tracked(s, ms, t, k) && Readable(t, m) && (s.NumValid() > 0 || m.from in s.vset)
    ensures Located(s, ms + [m], Next(t, Read(m, Verified)))
  {
    if Count(t, m) == s.NumValid() {
      OneMore(t.msgs, t.vset, m, m.view.round);
      LocatedByEntry(s, ms, m, t, k);
    } else if Count(t, m) == MaxFaultyNodes(|s.vset|) + 1 && t.view.round < m.view.round {
      LocatedByMove(s, ms, m, t, k);
    } else {
      LocatedAsBefore(s, ms, m, t, k);
    }
  }

  lemma LoopStep(s: Node, ms: seq<Message>, m: Message, t: Node)
    requires Located(s, ms, t) && (s.NumValid() > 0 || m.from in s.vset)
    ensures Located(s, ms + [m], Next(t, Read(m, Verified)))
  {
    if HasEntered(s, ms, t) {
      StaysEntered(s, ms, m, t);
    } else {
      var k :| Tracked(s, ms, t, k);
      TrackedStep(s, ms, m, t, k);
    }
  }

  lemma TrackedStep(s: Node, ms: seq<Message>, m: Message, t: Node, k: nat)
    requires Tracked(s, ms, t, k) && (s.NumValid() > 0 || m.from in s.vset)
    ensures Located(s, ms + [m], Next(t, Read(m, Verified)))
  {
    if Readable(t, m) {
      ReadableStep(s, ms, m, t, k);
    } else {
      Unread(s, ms, m, t, k);
    }
  }

  /** A node that has entered a round reads no more of them. */
  lemma StaysEntered(s: Node, ms: seq<Message>, m: Message, t: Node)
    requires HasEntered(s, ms, t)
    ensures HasEntered(s, ms + [m], Next(t, Read(m, Verified)))
  {
    AskersPart(s.vset, ms + [m], |ms|, t.view);
    assert (ms + [m])[..|ms|] == ms;
  }

  lemma {:induction false} LoopRun(s: Node, ms: seq<Message>)
    requires InLoop(s) && s.msgs.rounds == map[]
    requires s.NumValid() > 0 || forall m :: m in ms ==> m.from in s.vset
    ensures Located(s, ms, After(s, ms))
  {
    if ms == [] {
      assert Tracked(s, [], s, 0);
    } else {
      var n := |ms| - 1;
      assert ms == ms[..n] + [ms[n]] && ms[n] in ms;
      assert forall m :: m in ms[..n] ==> m in ms;
      LoopRun(s, ms[..n]);
      LoopStep(s, ms[..n], ms[n], After(s, ms[..n]));
    }
  }

  /** More than F validators ask for round r. */
  ghost predicate Called(s: Node, ms: seq<Message>, r: nat) {
    |Askers(s.vset, ms, View(s.view.sequence, r))| > MaxFaultyNodes(|s.vset|)
  }

  /** The round of a node that has just begun to change rounds and reads these messages. As long as it is not in a
      round that 2F validators asked for, it is in the greatest round above its first one that F + 1 asked for,
      with its own message for it sent, or in the first one if there is none; and fewer than 2F asked for that. */
  lemma RoundAfterMessages(s: Node, ms: seq<Message>)
    requires InLoop(s) && s.msgs.rounds == map[]
    requires s.NumValid() > 0 || forall m :: m in ms ==> m.from in s.vset
    ensures var t := After(s, ms);
      || HasEntered(s, ms, t)
      || (&& InLoop(t)
          && (forall r: nat :: r > t.view.round ==> !Called(s, ms, r))
          && (if t.view.round == s.view.round
              then s.NumValid() > 0 ==> |Askers(s.vset, ms, t.view)| < s.NumValid()
              else t.view.round > s.view.round && Called(s, ms, t.view.round) && HasAsked(t, t.view.round)))
  {
    LoopRun(s, ms);
    var t := After(s, ms);
    if !HasEntered(s, ms, t) {
      var k :| Tracked(s, ms, t, k);
      assert ms[0..] == ms && AboveFew(t.msgs, t.view, MaxFaultyNodes(|s.vset|));
      AskersPart(s.vset, ms, k, t.view);
    }
  }

  /** With F = 0 no round is ever entered on the word of validators: NumValid is 0, and the count of a round that one
      of them asked for is not. A message of somebody else for a round that nobody asked for enters it. */
  lemma RoundsWithoutFaults(s: Node, ms: seq<Message>, m: Message)
    requires InLoop(s) && s.msgs.rounds == map[] && s.NumValid() == 0
    requires forall x :: x in ms ==> x.from in s.vset
    ensures var t := After(s, ms);
      && InLoop(t)
      && (Next(t, Read(m, Verified)).phase.state == AcceptState <==>
            Readable(t, m) && m.from !in s.vset && RoundVotes(t.msgs, m.view.round) == map[])
  {
    LoopRun(s, ms);
    var t := After(s, ms);
    var k :| Tracked(s, ms, t, k);
    if Readable(t, m) {
      OneMore(t.msgs, t.vset, m, m.view.round);
      NobodyAsked(t, m);
      if Count(t, m) == 0 {
        ReadEnters(t, m);
      } else {
        StaysInLoop(t, m);
      }
    }
  }

  lemma NobodyAsked(t: Node, m: Message)
    requires m.typ == RoundChange
    ensures Count(t, m) == 0 <==> m.from !in t.vset && RoundVotes(t.msgs, m.view.round) == map[]
  {
    RoundVotesAdded(t.msgs, t.vset, m, m.view.round);
    OneMore(t.msgs, t.vset, m, m.view.round);
  }

  lemma StaysInLoop(t: Node, m: Message)
    requires InLoop(t) && Readable(t, m) && Count(t, m) != t.NumValid()
    ensures InLoop(Next(t, Read(m, Verified)))
  {
    if m.view.round > t.view.round && Count(t, m) == MaxFaultyNodes(|t.vset|) + 1 {
      ReadMoves(t, m);
    } else {
      ReadStays(t, m);
    }
  }

  // ----- Why a node leaves a round -----

  /** It waits for the proposal of its view. */
  predicate Waits(s: Node) {
    s.phase.state == AcceptState && s.phase.entered
  }

  /** A proposal that the node takes up: of its view and from the validator it has drawn. */
  predicate Proposal(s: Node, ev: Event) {
    Waits(s) && ev.Read? && Readable(s, ev.m) && ev.m.from == s.proposer && ev.m.proposal.Some?
  }

  /** Another block than the one it is locked on, a block that fails verification, or a failed insertion. */
  predicate Fails(s: Node, ev: Event) {
    || (s.phase.state == CommitState && ev.Insert? && ev.outcome != Inserted)
    || (Proposal(s, ev) && if s.lock.locked then ev.m.proposal != s.lock.block else ev.verdict == VerifyFailed)
  }

  /** It is the proposer of its view, has a snapshot and is a validator. */
  predicate Proposes(s: Node, ev: Event) {
    && s.phase.state == AcceptState && !s.phase.entered && ev.EnterAccept? && ev.found
    && s.head.number + 1 == s.view.sequence && s.me in s.vset && CalcProposer(s.vset, ev.seed) == s.me
  }

  /** No proposal or no votes in time, a proposal without a block, or no block to propose. */
  predicate GivesUp(s: Node, ev: Event) {
    || ((Waits(s) || s.phase.state == ValidateState) && ev.Timeout?)
    || (Waits(s) && ev.Read? && Readable(s, ev.m) && ev.m.from == s.proposer && ev.m.proposal.None?)
    || (Proposes(s, ev) && !s.lock.locked && ev.built.None?)
  }

  ghost predicate BeginsRoundChange(s: Node) {
    s.phase == Phase(RoundChangeState, false, false)
  }

  /** The error flag is up only between an error and the round change that it leads to. */
  ghost predicate Flagged(s: Node) {
    && Inv(s) && (s.failed ==> BeginsRoundChange(s))
    && (s.phase.hasCommitted ==> s.phase.state == ValidateState || s.phase.state == CommitState)
  }

  lemma VoteKeepsState(s: Node, m: Message)
    requires s.phase.state == ValidateState
    ensures var t := ValidateMessage(s, m);
      t.failed == s.failed && (t.phase.state == ValidateState || t.phase.state == CommitState)
  {
    var t := AddMessage(s, m);
    assert t.failed == s.failed && t.phase == s.phase;
    assert SendCommit(t).failed == t.failed && SendCommit(t).phase.state == t.phase.state;
  }

  /** The step to t is a failure, or giving up, exactly when t begins to change rounds; with the error flag in the
      first case. Giving up leaves the lock, and no block if none could be built. */
  ghost predicate BeginsExactly(s: Node, ev: Event, t: Node) {
    && (BeginsRoundChange(t) <==> Fails(s, ev) || GivesUp(s, ev)) && (t.failed <==> Fails(s, ev))
    && (GivesUp(s, ev) ==> t.lock == if ev.EnterAccept? then Lock(None, false) else s.lock)
    && (t.phase.hasCommitted ==> t.phase.state == ValidateState || t.phase.state == CommitState)
  }

  lemma BeginsByVote(s: Node, m: Message, verdict: Verdict)
    requires Flagged(s) && s.phase.state == ValidateState && Readable(s, m)
    ensures BeginsExactly(s, Read(m, verdict), ValidateMessage(s, m))
  {
    VoteKeepsState(s, m);
  }

  lemma BeginsByProposal(s: Node, m: Message, verdict: Verdict)
    requires Flagged(s) && Waits(s) && Readable(s, m)
    ensures BeginsExactly(s, Read(m, verdict), AcceptMessage(s, m, verdict))
  {
  }

  lemma BeginsByEntry(s: Node, found: bool, seed: nat, built: Option<nat>)
    requires Flagged(s) && s.phase.state == AcceptState && !s.phase.entered
    ensures BeginsExactly(s, EnterAccept(found, seed, built), BeginAccept(s, found, seed, built))
  {
  }

  /** A node begins to change rounds exactly when it fails or gives up, and it carries the error flag in the first case
      only. */
  lemma RoundChangeBegins(s: Node, ev: Event)
    requires Flagged(s) && s.phase.state != RoundChangeState
    ensures BeginsExactly(s, ev, Next(s, ev))
  {
    if ev.Read? && Readable(s, ev.m) {
      if s.phase.state == ValidateState {
        BeginsByVote(s, ev.m, ev.verdict);
      } else if Waits(s) {
        BeginsByProposal(s, ev.m, ev.verdict);
      }
    } else if ev.EnterAccept? && s.phase.state == AcceptState && !s.phase.entered {
      BeginsByEntry(s, ev.found, ev.seed, ev.built);
    }
  }

  lemma FlaggedStep(s: Node, ev: Event)
    requires Flagged(s)
    ensures Flagged(Next(s, ev))
  {
    InvStep(s, ev);
    if s.phase.state == RoundChangeState {
      if ev.Read? {
        assert AddMessage(s, ev.m).failed == s.failed;
      }
    } else {
      RoundChangeBegins(s, ev);
    }
  }

  lemma {:induction false} FlaggedRun(s: Node, evs: seq<Event>)
    requires Flagged(s)
    ensures Flagged(Run(s, evs))
  {
    if evs != [] {
      FlaggedRun(s, evs[..|evs| - 1]);
      FlaggedStep(Run(s, evs[..|evs| - 1]), evs[|evs| - 1]);
    }
  }

  /** On every run, a node that begins to change rounds asks for the next round, and starts counting afresh; only
      without an error it looks for a peer that is ahead, and then goes to sync. */
  lemma AsksForNextRound(vset: seq<Address>, me: Address, head: Header, evs: seq<Event>, peerAhead: bool)
    requires BeginsRoundChange(Run(InitialNode(vset, me, head), evs))
    ensures var s := Run(InitialNode(vset, me, head), evs);
      var t := Next(s, EnterRoundChange(peerAhead));
      && !t.failed && t.lock == s.lock && t.seals == s.seals && t.head == s.head
      && if peerAhead && !s.failed
         then t.phase.state == SyncState && t.view == s.view && t.sent == s.sent
         else InLoop(t) && t.view == View(s.view.sequence, s.view.round + 1) && HasAsked(t, t.view.round)
              && t.msgs.rounds == map[]
  {
    InitialInv(vset, me, head);
    FlaggedRun(InitialNode(vset, me, head), evs);
    var s := Run(InitialNode(vset, me, head), evs);
    assert forall k: nat :: !WeakRound(s.msgs.rounds, |s.vset|, k);
  }

  /** A node starts to validate a block exactly when it proposes it, being locked on it or having built it, or reads it
      as the proposal of its view: the block it is locked on, or else one that was verified. In the locked case it
      seals at once; otherwise it sends a prepare message. */
  lemma ValidationBegins(s: Node, ev: Event)
    requires Inv(s) && s.phase.state != ValidateState
    ensures var t := Next(s, ev);
      && (t.phase.state == ValidateState <==>
            || (Proposes(s, ev) && (s.lock.locked || ev.built.Some?))
            || (Proposal(s, ev) && if s.lock.locked then ev.m.proposal == s.lock.block else ev.verdict == Verified))
      && (t.phase.state == ValidateState ==>
            && t.phase == Phase(ValidateState, false, false) && t.view == s.view && t.msgs == NO_MSGS
            && t.lock.block == (if s.lock.locked then s.lock.block
                                else if Proposes(s, ev) then Some(Header(s.head.number + 1, ev.built.value))
                                else ev.m.proposal)
            && t.lock.locked == s.lock.locked
            && if s.lock.locked && !Proposes(s, ev)
               then t.seals == s.seals + [s.lock.block.value] && Message(s.me, Commit, s.view, s.lock.block) in t.sent
               else t.seals == s.seals && Message(s.me, Prepare, s.view, None) in t.sent)
  {
    if ev.Read? && Readable(s, ev.m) && s.phase.state == RoundChangeState {
      assert AddMessage(s, ev.m).phase == s.phase;
    }
  }

  /** A node goes to sync exactly when it is about to wait for a proposal of another height than the next one, has no
      snapshot or is no validator, or when no error but a peer that is ahead meets it in a round change. */
  lemma SyncBegins(s: Node, ev: Event)
    requires Flagged(s) && s.phase.state != SyncState
    ensures Next(s, ev).phase.state == SyncState <==>
      || (s.phase.state == AcceptState && !s.phase.entered && ev.EnterAccept?
          && (s.head.number + 1 != s.view.sequence || !ev.found || s.me !in s.vset))
      || (BeginsRoundChange(s) && ev == EnterRoundChange(true) && !s.failed)
      || (s.phase.state == RoundChangeState && s.phase.entered && ev == Timeout(true))
  {
    if ev.Read? && Readable(s, ev.m) {
      if s.phase.state == ValidateState {
        VoteKeepsState(s, ev.m);
      } else if s.phase.state == RoundChangeState {
        assert AddMessage(s, ev.m).phase == s.phase;
      }
    }
    assert s.msgs.rounds == map[] ==> forall k: nat :: !WeakRound(s.msgs.rounds, |s.vset|, k);
  }
}
