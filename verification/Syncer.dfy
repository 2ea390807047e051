/** The binary search for the block a node shares with a peer: syncer/syncer.go. The peer is any function from
    heights to answers; the midpoint is the exact integer one. */
module Syncer {
  import opened Types
  import Chain

  datatype Reply = Failed | NoHeader | Got(header: Chain.Header)

  datatype Outcome =
    | Ancestor(header: Chain.Header, fork: Chain.Header)
    | LoadLocalGenesisFailed
    | RequestFailed
    | LocalHeaderMissing(number: nat)
    | CommonAncestorNotFound
    | ForkRequestFailed
    | ForkNotFound

  /** The local index: a header under its number. */
  ghost predicate Numbered(local: map<nat, Chain.Header>) {
    forall n :: n in local ==> local[n].number == n
  }

  /** Equal hashes mean equal headers. */
  ghost predicate NoCollision(local: map<nat, Chain.Header>, peer: nat -> Reply) {
    forall m: nat, n: nat :: m in local && peer(n).Got? && peer(n).header.hash == local[m].hash ==>
      peer(n).header == local[m]
  }

  /** The peer gives the same header as the local one at height n. */
  predicate Same(local: map<nat, Chain.Header>, peer: nat -> Reply, n: nat) {
    n in local && peer(n).Got? && peer(n).header.hash == local[n].hash
  }

  /** The index is complete up to the head and linked by the parent hashes, and so is the chain of a peer
      that answers every request. */
  ghost predicate BothLinked(local: map<nat, Chain.Header>, head: nat, peer: nat -> Reply) {
    && (forall n: nat :: n <= head ==> n in local)
    && (forall n: nat :: n < head ==> local[n + 1].parentHash == local[n].hash)
    && (forall n: nat :: !peer(n).Failed?)
    && (forall n: nat :: peer(n + 1).Got? ==> peer(n).Got? && peer(n + 1).header.parentHash == peer(n).header.hash)
  }

  /** Chains that agree at a height agree at every lower one. */
  lemma {:induction false} SameBelow(local: map<nat, Chain.Header>, head: nat, peer: nat -> Reply, n: nat, k: nat)
    requires BothLinked(local, head, peer) && NoCollision(local, peer)
    requires k <= n <= head && Same(local, peer, n)
    ensures Same(local, peer, k)
  {
    if k < n {
      assert peer(n - 1 + 1).Got? && local[n - 1 + 1].parentHash == local[n - 1].hash;
      SameBelow(local, head, peer, n - 1, k);
    }
  }

  /** The greatest height up to max at which the chains agree, or 0. */
  function CommonHeight(local: map<nat, Chain.Header>, peer: nat -> Reply, max: nat): (n: nat)
    ensures n <= max && (n > 0 ==> Same(local, peer, n))
    ensures forall k: nat :: n < k <= max ==> !Same(local, peer, k)
  {
    if max == 0 || Same(local, peer, max) then max else CommonHeight(local, peer, max - 1)
  }

  /** A height at which the chains differ is above the common one. */
  lemma CommonIsBelow(local: map<nat, Chain.Header>, head: nat, peer: nat -> Reply, max: nat, m: nat)
    requires BothLinked(local, head, peer) && NoCollision(local, peer) && max <= head && 0 < m
    ensures !Same(local, peer, m) ==> CommonHeight(local, peer, max) < m
  {
    var n := CommonHeight(local, peer, max);
    if m <= n {
      SameBelow(local, head, peer, n, m);
    }
  }

  /** The search, starting with the bound max and going down at every probe, comes to the bounds 0 and 1,
      whose midpoint is the genesis, so it never asks for block 1. */
  predicate MissesOne(max: nat) {
    max == 1 || (max >= 4 && MissesOne(max / 2 - 1))
  }

  function Pow2(k: nat): (r: nat)
    ensures r >= 1
  {
    if k == 0 then 1 else 2 * Pow2(k - 1)
  }

  lemma {:induction false} MissesOneFrom(max: nat) returns (k: nat)
    requires MissesOne(max)
    ensures 3 * Pow2(k) - 2 <= max <= 4 * Pow2(k) - 3
  {
    if max == 1 {
      assert Pow2(0) == 1;
      return 0;
    }
    var j := MissesOneFrom(max / 2 - 1);
    k := j + 1;
  }

  lemma {:induction false} MissesOneTo(max: nat, k: nat)
    requires 3 * Pow2(k) - 2 <= max <= 4 * Pow2(k) - 3
    ensures MissesOne(max)
  {
    if k > 0 {
      MissesOneTo(max / 2 - 1, k - 1);
    }
  }

  /** The bounds for which block 1 is missed: 1, then 4 to 5, 10 to 13, 22 to 29 and so on. */
  lemma MissesOneExactly(max: nat)
    ensures MissesOne(max) <==> exists k: nat :: 3 * Pow2(k) - 2 <= max <= 4 * Pow2(k) - 3
  {
    if MissesOne(max) {
      var k := MissesOneFrom(max);
    }
    forall k: nat | 3 * Pow2(k) - 2 <= max <= 4 * Pow2(k) - 3 ensures MissesOne(max) {
      MissesOneTo(max, k);
    }
  }

  /** The height the search returns. */
  function FoundHeight(local: map<nat, Chain.Header>, peer: nat -> Reply, max: nat): nat {
    var n := CommonHeight(local, peer, max);
    if n == 1 && MissesOne(max) then 0 else n
  }

  datatype Found = Header(header: Chain.Header) | Error(outcome: Outcome)

  /** A header that the peer also has, or the local genesis. */
  predicate Shared(local: map<nat, Chain.Header>, peer: nat -> Reply, max: nat, h: Chain.Header) {
    var n := h.number;
    n <= max && n in local && local[n] == h && (n > 0 ==> Same(local, peer, n))
  }

  /** Asks for the header at height m and compares it: the answer is the shared header, none, or an error. */
  method Probe(local: map<nat, Chain.Header>, peer: nat -> Reply, m: nat)
      returns (h: Option<Chain.Header>, err: Option<Outcome>)
    requires Numbered(local) && NoCollision(local, peer)
    ensures err.Some? <==> peer(m).Failed? || (peer(m).Got? && m !in local)
    ensures err.Some? ==> err.value == if peer(m).Failed? then RequestFailed else LocalHeaderMissing(m)
    ensures err.None? ==> h == if Same(local, peer, m) then Some(local[m]) else None
  {
    var found := peer(m);
    match found
    case Failed => return None, Some(RequestFailed);
    case NoHeader => return None, None;
    case Got(header) =>
      if m !in local {
        return None, Some(LocalHeaderMissing(m));
      }
      return if local[m].hash == header.hash then Some(header) else None, None;
  }

  /** Why the search gives up: no local genesis, a request that failed, or no local header to compare with. */
  ghost predicate Broken(local: map<nat, Chain.Header>, peer: nat -> Reply, max: nat, outcome: Outcome) {
    match outcome
    case LoadLocalGenesisFailed => 0 !in local
    case RequestFailed => exists m: nat :: 0 < m <= max && peer(m).Failed?
    case LocalHeaderMissing(m) => 0 < m <= max && m !in local && peer(m).Got?
    case _ => false
  }

  method Search(local: map<nat, Chain.Header>, ghost head: nat, peer: nat -> Reply, top: nat) returns (r: Found)
    requires Numbered(local) && NoCollision(local, peer) && top <= head
    ensures r.Header? ==> Shared(local, peer, top, r.header)
    ensures r.Error? ==> Broken(local, peer, top, r.outcome) && !BothLinked(local, head, peer)
    ensures BothLinked(local, head, peer) ==> r == Header(local[FoundHeight(local, peer, top)])
  {
    var min: nat, max: nat := 0, top;
    var header: Option<Chain.Header> := None;
    ghost var common := CommonHeight(local, peer, max);
    while min <= max
      invariant max <= top && min <= max + 1 && min <= common + 1 && min != 1
      invariant header == if min == 0 then None else if min - 1 in local then Some(local[min - 1]) else None
      invariant min > 0 ==> Same(local, peer, min - 1)
      invariant BothLinked(local, head, peer) ==> common <= max
      invariant min == 0 ==> (MissesOne(top) <==> MissesOne(max))
      invariant min == 2 && common == 1 ==> !MissesOne(top)
      decreases max + 1 - min
    {
      var m := (min + max) / 2;
      if m == 0 {
        if 0 !in local {
          return Error(LoadLocalGenesisFailed);
        }
        return Header(local[0]);
      }
      if BothLinked(local, head, peer) {
        CommonIsBelow(local, head, peer, top, m);
      }
      var found, err := Probe(local, peer, m);
      if err.Some? {
        return Error(err.value);
      }
      if found.None? {
        max := m - 1;
      } else {
        header, min := found, m + 1;
      }
    }
    return Header(header.value);
  }

  /** For every peer, an ancestor is a local header that the peer also has, or the local genesis, and the
      search for it never comes back empty. For linked chains it is the greatest common height, except for
      the bounds that miss block 1; a different genesis is not noticed. */
  method FindCommonAncestor(local: map<nat, Chain.Header>, head: nat, peer: nat -> Reply, status: nat)
    returns (r: Outcome)
    requires Numbered(local) && NoCollision(local, peer)
    ensures r != CommonAncestorNotFound
    ensures r.Ancestor? ==>
      Shared(local, peer, Min(head, status), r.header) && peer(r.header.number + 1) == Got(r.fork)
    ensures r.ForkNotFound? || r.ForkRequestFailed? ==>
      exists h :: Shared(local, peer, Min(head, status), h)
        && peer(h.number + 1) == if r.ForkNotFound? then NoHeader else Failed
    ensures !r.Ancestor? && !r.ForkNotFound? && !r.ForkRequestFailed? ==> Broken(local, peer, Min(head, status), r)
    ensures BothLinked(local, head, peer) ==>
      var n := FoundHeight(local, peer, Min(head, status));
      r == if peer(n + 1).Got? then Ancestor(local[n], peer(n + 1).header) else ForkNotFound
  {
    var found := Search(local, head, peer, Min(head, status));
    if found.Error? {
      return found.outcome;
    }
    var fork := peer(found.header.number + 1);
    match fork
    case Failed => r := ForkRequestFailed;
    case NoHeader => r := ForkNotFound;
    case Got(h) => r := Ancestor(found.header, h);
  }
}
