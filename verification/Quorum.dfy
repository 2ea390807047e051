/** Validator sets and the seal quorum: consensus/pvbft/validator.go, snapshot.go and
    verifyCommitedFields of sign.go. */
module Quorum {
  import opened Types
  import opened Sums

  /** MaxFaultyNodes: (N - 1) / 3 with Go's truncating division. */
  function MaxFaultyNodes(n: nat): nat {
    if n == 0 then 0 else (n - 1) / 3
  }

  function Elements<T(!new)>(s: seq<T>): (r: set<T>)
    ensures forall x :: x in r <==> x in s
  {
    set x | x in s
  }

  ghost predicate Distinct<T>(s: seq<T>) {
    forall i, j :: 0 <= i < j < |s| ==> s[i] != s[j]
  }

  lemma ElementsAppend<T(!new)>(s: seq<T>, x: T)
    ensures Elements(s + [x]) == Elements(s) + {x}
  {
  }

  lemma {:induction false} DistinctCardinality<T(!new)>(s: seq<T>)
    requires Distinct(s)
    ensures |Elements(s)| == |s|
  {
    if s != [] {
      var t, x := s[..|s| - 1], s[|s| - 1];
      DistinctCardinality(t);
      ElementsAppend(t, x);
      assert s == t + [x];
      assert x !in t;
    }
  }

  /** Index: the first position, or -1. */
  method Index(validators: seq<Address>, addr: Address) returns (i: int)
    ensures i == -1 ==> addr !in validators
    ensures i != -1 ==> 0 <= i < |validators| && validators[i] == addr && addr !in validators[..i]
  {
    for k := 0 to |validators|
      invariant addr !in validators[..k]
    {
      if validators[k] == addr {
        return k;
      }
    }
    return -1;
  }

  // ----- Two seal quorums meet in an honest validator: exactly when N == 3F + 1 -----

  /** A set of more than 2F of the given validators. */
  ghost predicate IsQuorum(q: set<Address>, validators: set<Address>) {
    q <= validators && |q| > 2 * MaxFaultyNodes(|validators|)
  }

  ghost predicate QuorumsMeet(validators: set<Address>) {
    forall a, b, faulty: set<Address> ::
      IsQuorum(a, validators) && IsQuorum(b, validators) && |faulty| <= MaxFaultyNodes(|validators|) ==>
        exists v :: v in a && v in b && v !in faulty
  }

  lemma Overlap(a: set<Address>, b: set<Address>, all: set<Address>)
    requires a <= all && b <= all
    ensures |a * b| >= |a| + |b| - |all|
  {
    assert |a + b| == |a| + |b| - |a * b|;
    SubsetSize(a + b, all);
  }

  lemma QuorumIntersection(validators: set<Address>, a: set<Address>, b: set<Address>, faulty: set<Address>)
      returns (v: Address)
    requires |validators| % 3 == 1
    requires IsQuorum(a, validators) && IsQuorum(b, validators) && |faulty| <= MaxFaultyNodes(|validators|)
    ensures v in a && v in b && v !in faulty
  {
    Overlap(a, b, validators);
    var honest := (a * b) - faulty;
    assert |(a * b) * faulty| <= |faulty| by { SubsetSize((a * b) * faulty, faulty); }
    assert |a * b| == |honest| + |(a * b) * faulty| by { assert a * b == honest + (a * b) * faulty; }
    v :| v in honest;
  }

  lemma {:induction false} TakeSubset<T>(s: set<T>, n: nat) returns (t: set<T>)
    requires n <= |s|
    ensures t <= s && |t| == n
  {
    if n == 0 {
      t := {};
    } else {
      var x :| x in s;
      var u := TakeSubset(s - {x}, n - 1);
      t := u + {x};
    }
  }

  /** With N == 3F + 2 or N == 3F + 3 there are two quorums whose common members may all be faulty, and any
      validator can be among those, if there is a faulty one at all. */
  lemma QuorumsNeedNotMeet(validators: set<Address>, p: Address)
      returns (a: set<Address>, b: set<Address>, faulty: set<Address>)
    requires p in validators && |validators| % 3 != 1
    ensures IsQuorum(a, validators) && IsQuorum(b, validators) && |faulty| <= MaxFaultyNodes(|validators|)
    ensures a * b <= faulty && faulty <= validators && |a| == |b| == 2 * MaxFaultyNodes(|validators|) + 1
    ensures MaxFaultyNodes(|validators|) > 0 ==> p in faulty
  {
    var f := MaxFaultyNodes(|validators|);
    if f == 0 {
      faulty := {};
    } else {
      var others := TakeSubset(validators - {p}, f - 1);
      faulty := others + {p};
    }
    assert |validators - faulty| == |validators| - f by { assert validators == faulty + (validators - faulty); }
    a, b := TwoHalves(validators - faulty, faulty, f);
  }

  lemma TwoHalves(rest: set<Address>, faulty: set<Address>, f: nat) returns (a: set<Address>, b: set<Address>)
    requires rest !! faulty && |faulty| == f && |rest| >= 2 * f + 2
    ensures a <= rest + faulty && b <= rest + faulty && a * b <= faulty && |a| == |b| == 2 * f + 1
  {
    var left := TakeSubset(rest, f + 1);
    assert |rest - left| >= f + 1 by { assert rest == left + (rest - left); }
    var right := TakeSubset(rest - left, f + 1);
    a, b := faulty + left, faulty + right;
  }

  /** The exact condition under which the 2F + 1 rule is safe. */
  lemma QuorumsMeetExactly(validators: set<Address>)
    ensures QuorumsMeet(validators) <==> |validators| == 0 || |validators| % 3 == 1
  {
    if |validators| == 0 {
      forall a: set<Address> ensures !IsQuorum(a, validators) {
        if a <= validators {
          SubsetSize(a, validators);
        }
      }
    } else if |validators| % 3 == 1 {
      forall a, b, faulty: set<Address> | IsQuorum(a, validators) && IsQuorum(b, validators)
                                          && |faulty| <= MaxFaultyNodes(|validators|)
        ensures exists v :: v in a && v in b && v !in faulty
      {
        var v := QuorumIntersection(validators, a, b, faulty);
      }
    } else {
      var p :| p in validators;
      var a, b, faulty := QuorumsNeedNotMeet(validators, p);
      assert forall v :: v in a && v in b ==> v in a * b;
    }
  }

  // ----- verifyCommitedFields -----

  datatype SealCheck = SealsOk | EmptySeals | RecoverFailed | RepeatedSeal | NonValidator | NotEnoughSeals

  /** The signer recovered from the i-th seal is a validator that signed no earlier seal. */
  ghost predicate GoodSeal<S, M>(validators: seq<Address>, recover: (S, M) -> Option<Address>, seals: seq<S>, msg: M,
                                 i: nat)
    requires i < |seals|
  {
    && recover(seals[i], msg).Some?
    && recover(seals[i], msg).value in validators
    && forall j :: 0 <= j < i ==> recover(seals[j], msg) != recover(seals[i], msg)
  }

  /** Seals by more than 2F different validators, and by nobody else. */
  ghost predicate Committed<S, M>(validators: seq<Address>, recover: (S, M) -> Option<Address>, seals: seq<S>, msg: M) {
    && (forall i :: 0 <= i < |seals| ==> GoodSeal(validators, recover, seals, msg, i))
    && |seals| > 2 * MaxFaultyNodes(|validators|)
  }

  function Signers<S, M>(recover: (S, M) -> Option<Address>, seals: seq<S>, msg: M): (r: set<Address>)
    ensures forall a :: a in r <==> exists i :: 0 <= i < |seals| && recover(seals[i], msg) == Some(a)
  {
    set i | 0 <= i < |seals| && recover(seals[i], msg).Some? :: recover(seals[i], msg).value
  }

  lemma {:induction false} SignersCount<S, M>(validators: seq<Address>, recover: (S, M) -> Option<Address>,
                                              seals: seq<S>, msg: M)
    requires forall i :: 0 <= i < |seals| ==> GoodSeal(validators, recover, seals, msg, i)
    ensures |Signers(recover, seals, msg)| == |seals|
  {
    if seals != [] {
      var n := |seals| - 1;
      var t := seals[..n];
      assert forall i :: 0 <= i < n ==> GoodSeal(validators, recover, seals, msg, i) ==>
        GoodSeal(validators, recover, t, msg, i);
      SignersCount(validators, recover, t, msg);
      assert GoodSeal(validators, recover, seals, msg, n);
      var a := recover(seals[n], msg).value;
      assert a !in Signers(recover, t, msg);
      assert Signers(recover, seals, msg) == Signers(recover, t, msg) + {a};
    }
  }

  /** The check accepts exactly the seal lists that Committed describes, and otherwise names the fault
      of the first bad seal. */
  method VerifyCommitedFields<S, M>(validators: seq<Address>, recover: (S, M) -> Option<Address>, seals: seq<S>, msg: M)
      returns (r: SealCheck)
    ensures r.SealsOk? <==> Committed(validators, recover, seals, msg)
    ensures r.EmptySeals? <==> seals == []
    ensures r.NotEnoughSeals? ==> forall i :: 0 <= i < |seals| ==> GoodSeal(validators, recover, seals, msg, i)
    ensures r.RecoverFailed? || r.RepeatedSeal? || r.NonValidator? ==>
              exists i :: FirstFault(validators, recover, seals, msg, i, r)
  {
    if |seals| == 0 {
      return EmptySeals;
    }
    var visited: set<Address> := {};
    for k := 0 to |seals|
      invariant forall j :: 0 <= j < k ==> GoodSeal(validators, recover, seals, msg, j)
      invariant visited == Signers(recover, seals[..k], msg)
    {
      match recover(seals[k], msg)
      case None =>
        assert FirstFault(validators, recover, seals, msg, k, RecoverFailed);
        return RecoverFailed;
      case Some(addr) =>
        if addr in visited {
          assert FirstFault(validators, recover, seals, msg, k, RepeatedSeal);
          return RepeatedSeal;
        }
        var index := Index(validators, addr);
        if index == -1 {
          assert FirstFault(validators, recover, seals, msg, k, NonValidator);
          return NonValidator;
        }
        assert seals[..k + 1] == seals[..k] + [seals[k]];
        visited := visited + {addr};
    }
    assert seals[..|seals|] == seals;
    SignersCount(validators, recover, seals, msg);
    if |visited| <= 2 * MaxFaultyNodes(|validators|) {
      return NotEnoughSeals;
    }
    return SealsOk;
  }

  /** The i-th seal is the first bad one, and r says what is wrong with it, in the order the code asks. */
  ghost predicate FirstFault<S, M>(validators: seq<Address>, recover: (S, M) -> Option<Address>, seals: seq<S>, msg: M,
                                   i: nat, r: SealCheck)
  {
    && i < |seals| && !GoodSeal(validators, recover, seals, msg, i)
    && (forall j :: 0 <= j < i ==> GoodSeal(validators, recover, seals, msg, j))
    && match recover(seals[i], msg)
       case None => r == RecoverFailed
       case Some(a) => r == if a in Signers(recover, seals[..i], msg) then RepeatedSeal else NonValidator
  }

  /** A committed seal list is a quorum of its signers. */
  lemma CommittedIsQuorum<S, M>(validators: seq<Address>, recover: (S, M) -> Option<Address>, seals: seq<S>, msg: M)
    requires Distinct(validators) && Committed(validators, recover, seals, msg)
    ensures IsQuorum(Signers(recover, seals, msg), Elements(validators))
  {
    SignersCount(validators, recover, seals, msg);
    DistinctCardinality(validators);
    forall a | a in Signers(recover, seals, msg) ensures a in validators {
      var i :| 0 <= i < |seals| && recover(seals[i], msg) == Some(a);
      assert GoodSeal(validators, recover, seals, msg, i);
    }
  }
}
