/** Fork choice and the canonical index: core/blockchain.go. The key-value store is a set of maps, the LRU
    caches are maps that may lose entries at any time, and block verification is an answer from outside. */
module Chain {
  import opened Types

  type Hash = nat

  const ZERO_HASH: Hash := 0

  datatype Header = Header(hash: Hash, parentHash: Hash, number: nat, difficulty: nat)

  // ----- The headers with a total difficulty, as a tree -----

  /** The headers in the database and the total difficulties stored for them. */
  datatype Tree = Tree(headers: map<Hash, Header>, tds: map<Hash, nat>, genesis: Hash) {

    ghost predicate Linked(h: Hash)
      requires h in tds
    {
      && h in headers && headers[h].hash == h
      && if h == genesis then
           headers[h].number == 0 && tds[h] == headers[h].difficulty && headers[h].parentHash == ZERO_HASH
         else
           var parent := headers[h].parentHash;
           && parent in tds && parent in headers
           && headers[h].number == headers[parent].number + 1
           && headers[h].difficulty > 0
           && tds[h] == tds[parent] + headers[h].difficulty
    }

    /** Every header with a total difficulty is linked to the genesis by headers with one. */
    ghost predicate Ok() {
      genesis in tds && ZERO_HASH !in tds && forall h {:trigger Linked(h)} :: h in tds ==> Linked(h)
    }

    ghost function Number(h: Hash): nat
      requires Ok() && h in tds
    {
      assert Linked(h);
      headers[h].number
    }

    ghost function Parent(h: Hash): (p: Hash)
      requires Ok() && h in tds && h != genesis
      ensures p in tds && p in headers && Number(p) == Number(h) - 1 && tds[p] < tds[h]
    {
      assert Linked(h);
      headers[h].parentHash
    }

    /** The ancestor of h at height n. */
    ghost function Ancestor(h: Hash, n: nat): (a: Hash)
      requires Ok() && h in tds && n <= Number(h)
      ensures a in tds && Number(a) == n
      ensures n == Number(h) ==> a == h
      decreases Number(h)
    {
      assert Linked(h);
      if n == Number(h) then h else Ancestor(Parent(h), n)
    }

    /** The canonical index of the chain that ends in h. */
    ghost function Path(h: Hash): (m: map<nat, Hash>)
      requires Ok() && h in tds
    {
      map n: nat | n <= Number(h) :: Ancestor(h, n)
    }

    /** The difficulties along the path from the genesis, added up. */
    ghost function PathDifficulty(h: Hash): nat
      requires Ok() && h in tds
      decreases Number(h)
    {
      assert Linked(h);
      headers[h].difficulty + if h == genesis then 0 else PathDifficulty(Parent(h))
    }
  }

  /** Stored total difficulty is the sum of the difficulties along the parent path. */
  lemma {:induction false} TotalDifficultyIsPathSum(t: Tree, h: Hash)
    requires t.Ok() && h in t.tds
    ensures t.tds[h] == t.PathDifficulty(h)
    decreases t.Number(h)
  {
    assert t.Linked(h);
    if h != t.genesis {
      TotalDifficultyIsPathSum(t, t.Parent(h));
    }
  }

  lemma GenesisIsRoot(t: Tree, h: Hash)
    requires t.Ok() && h in t.tds
    ensures t.Number(h) == 0 <==> h == t.genesis
  {
    assert t.Linked(h) && t.Linked(t.genesis);
  }

  /** A proper ancestor has a smaller total difficulty. */
  lemma {:induction false} AncestorIsLighter(t: Tree, h: Hash, n: nat)
    requires t.Ok() && h in t.tds && n <= t.Number(h)
    ensures n < t.Number(h) ==> t.tds[t.Ancestor(h, n)] < t.tds[h]
    decreases t.Number(h)
  {
    GenesisIsRoot(t, h);
    if n < t.Number(h) {
      AncestorIsLighter(t, t.Parent(h), n);
    }
  }

  lemma {:induction false} AncestorOfAncestor(t: Tree, h: Hash, m: nat, n: nat)
    requires t.Ok() && h in t.tds && n <= m <= t.Number(h)
    ensures t.Ancestor(t.Ancestor(h, m), n) == t.Ancestor(h, n)
    decreases t.Number(h)
  {
    if m < t.Number(h) {
      GenesisIsRoot(t, h);
      AncestorOfAncestor(t, t.Parent(h), m, n);
    }
  }

  /** Adding a header on top of a known parent. */
  function Extend(t: Tree, header: Header): Tree
    requires header.parentHash in t.tds
  {
    t.(headers := t.headers[header.hash := header],
       tds := t.tds[header.hash := t.tds[header.parentHash] + header.difficulty])
  }

  /** No other header has the hash. */
  ghost predicate Unclashing(t: Tree, header: Header) {
    header.hash != ZERO_HASH && (header.hash in t.headers ==> t.headers[header.hash] == header)
  }

  /** The header fits the tree: it has a difficulty and continues its parent if that is known. */
  ghost predicate Fits(t: Tree, header: Header) {
    && Unclashing(t, header) && header.difficulty > 0
    && (header.parentHash in t.headers ==> header.number == t.headers[header.parentHash].number + 1)
  }

  /** A header that is in the tree already fits it, if its parent is there too. */
  lemma KnownFits(t: Tree, header: Header)
    requires t.Ok() && Unclashing(t, header) && header.hash in t.tds && header.parentHash in t.tds
    ensures Fits(t, header) && t.tds[header.hash] == t.tds[header.parentHash] + header.difficulty
  {
    assert t.Linked(header.hash);
  }

  lemma ExtendOk(t: Tree, header: Header)
    requires t.Ok() && Fits(t, header) && header.parentHash in t.tds
    ensures Extend(t, header).Ok()
    ensures forall h :: h in t.tds ==> Extend(t, header).tds[h] == t.tds[h]
  {
    var t' := Extend(t, header);
    assert t.Linked(header.parentHash) && t.Linked(t.genesis);
    if header.hash in t.tds {
      assert t.Linked(header.hash);
    }
    forall h | h in t'.tds ensures t'.Linked(h) {
      if h in t.tds {
        assert t.Linked(h);
      }
    }
  }

  /** A tree with more in it. */
  ghost predicate Grows(t: Tree, t': Tree) {
    && t.genesis == t'.genesis
    && forall h :: h in t.tds ==> h in t'.tds && (h in t.headers ==> h in t'.headers && t'.headers[h] == t.headers[h])
  }

  lemma {:induction false} GrowsKeepsAncestors(t: Tree, t': Tree, h: Hash, n: nat)
    requires t.Ok() && t'.Ok() && Grows(t, t') && h in t.tds && n <= t.Number(h)
    ensures t'.Number(h) == t.Number(h)
    ensures t'.Ancestor(h, n) == t.Ancestor(h, n)
    decreases t.Number(h)
  {
    assert t.Linked(h);
    if n < t.Number(h) {
      GenesisIsRoot(t, h);
      GrowsKeepsAncestors(t, t', t.Parent(h), n);
    }
  }

  lemma GrowsKeepsPath(t: Tree, t': Tree, h: Hash)
    requires t.Ok() && t'.Ok() && Grows(t, t') && h in t.tds
    ensures t'.Path(h) == t.Path(h)
  {
    GrowsKeepsAncestors(t, t', h, 0);
    forall n: nat | n <= t.Number(h) ensures t'.Ancestor(h, n) == t.Ancestor(h, n) {
      GrowsKeepsAncestors(t, t', h, n);
    }
  }

  // ----- The canonical index after a reorganisation -----

  /** What handleReorg leaves in the index: the new chain from the last head's height up, and below it
      whatever was there. */
  ghost function ReorgIndex(t: Tree, index: map<nat, Hash>, last: Hash, tip: Hash): map<nat, Hash>
    requires t.Ok() && last in t.tds && tip in t.tds
  {
    (index + map n: nat | t.Number(last) <= n < t.Number(tip) :: t.Ancestor(tip, n))[t.Number(tip) := tip]
  }

  /** The new head is at least as high as the old one, and their chains split no deeper than right below
      the old head. */
  ghost predicate ShallowReorg(t: Tree, last: Hash, tip: Hash)
    requires t.Ok() && last in t.tds && tip in t.tds
  {
    last == t.genesis
    || (t.Number(tip) >= t.Number(last) && t.Ancestor(tip, t.Number(t.Parent(last))) == t.Parent(last))
  }

  lemma ShallowReorgIsRight(t: Tree, last: Hash, tip: Hash)
    requires t.Ok() && last in t.tds && tip in t.tds && ShallowReorg(t, last, tip)
    ensures ReorgIndex(t, t.Path(last), last, tip) == t.Path(tip)
  {
    GenesisIsRoot(t, last);
    if last != t.genesis {
      var k := t.Number(last) - 1;
      assert t.Ancestor(last, k) == t.Parent(last);
      forall n: nat | n <= k ensures t.Ancestor(last, n) == t.Ancestor(tip, n) {
        AncestorOfAncestor(t, last, k, n);
        AncestorOfAncestor(t, tip, k, n);
      }
    }
  }

  /** Where the index after a reorganisation still shows the old chain. */
  lemma LeftoverIndex(t: Tree, index: map<nat, Hash>, last: Hash, tip: Hash, n: nat)
    requires t.Ok() && last in t.tds && tip in t.tds && n in index
    requires n != t.Number(tip) && !(t.Number(last) <= n < t.Number(tip))
    ensures n in ReorgIndex(t, index, last, tip) && ReorgIndex(t, index, last, tip)[n] == index[n]
  {
  }

  lemma DeepReorgDiffers(t: Tree, last: Hash, tip: Hash, n: nat)
    requires t.Ok() && last in t.tds && tip in t.tds && !ShallowReorg(t, last, tip)
    requires n == if t.Number(tip) < t.Number(last) then t.Number(last) else t.Number(last) - 1
    ensures n in t.Path(tip) ==> t.Path(tip)[n] != t.Path(last)[n]
  {
    GenesisIsRoot(t, last);
    if n < t.Number(last) {
      assert t.Ancestor(last, n) == t.Parent(last);
    }
  }

  /** The index is right after a reorganisation exactly when it is shallow. */
  lemma ReorgIndexExact(t: Tree, last: Hash, tip: Hash)
    requires t.Ok() && last in t.tds && tip in t.tds
    ensures ReorgIndex(t, t.Path(last), last, tip) == t.Path(tip) <==> ShallowReorg(t, last, tip)
  {
    if ShallowReorg(t, last, tip) {
      ShallowReorgIsRight(t, last, tip);
    } else {
      GenesisIsRoot(t, last);
      var n: nat := if t.Number(tip) < t.Number(last) then t.Number(last) else t.Number(last) - 1;
      LeftoverIndex(t, t.Path(last), last, tip, n);
      DeepReorgDiffers(t, last, tip, n);
    }
  }

  /** A block on top of the head is a shallow reorganisation that writes one entry. */
  lemma ExtendingHead(t: Tree, index: map<nat, Hash>, last: Hash, tip: Hash)
    requires t.Ok() && last in t.tds && tip in t.tds && tip != t.genesis && t.Parent(tip) == last
    requires t.Number(last) in index && index[t.Number(last)] == last
    ensures ReorgIndex(t, index, last, tip) == index[t.Number(tip) := tip]
    ensures ShallowReorg(t, last, tip)
  {
    var n := t.Number(last);
    assert t.Ancestor(tip, n) == last;
    if last != t.genesis {
      AncestorOfAncestor(t, tip, n, t.Number(t.Parent(last)));
    }
  }

  // ----- Difficulty equal to the number, as the consensus demands -----

  ghost predicate DifficultyIsNumber(t: Tree) {
    forall h :: h in t.tds && h in t.headers && h != t.genesis ==> t.headers[h].difficulty == t.headers[h].number
  }

  function Triangle(n: nat): nat {
    if n == 0 then 0 else n + Triangle(n - 1)
  }

  lemma {:induction false} TriangleGrows(m: nat, n: nat)
    requires m < n
    ensures Triangle(m) < Triangle(n)
  {
    if m < n - 1 {
      TriangleGrows(m, n - 1);
    }
  }

  lemma {:induction false} TriangularDifficulty(t: Tree, h: Hash)
    requires t.Ok() && DifficultyIsNumber(t) && h in t.tds
    ensures t.tds[h] == t.tds[t.genesis] + Triangle(t.Number(h))
    decreases t.Number(h)
  {
    assert t.Linked(h);
    GenesisIsRoot(t, h);
    if h != t.genesis {
      TriangularDifficulty(t, t.Parent(h));
    }
  }

  /** No header but the new one is heavier than the head, as before every reorganisation. */
  ghost predicate OnlyHeavier(t: Tree, last: Hash, tip: Hash) {
    && last in t.tds && tip in t.tds && t.tds[last] < t.tds[tip]
    && forall h :: h in t.tds && h != tip ==> t.tds[h] <= t.tds[last]
  }

  /** No other header has one that is at least as heavy below it; so the old head is below a new one only as its
      parent. */
  lemma HeadIsNotBelow(t: Tree, last: Hash, h: Hash)
    requires t.Ok() && last in t.tds && h in t.tds && h != last && t.tds[h] <= t.tds[last]
    ensures t.Number(last) <= t.Number(h) ==> t.Ancestor(h, t.Number(last)) != last
  {
    if t.Number(last) <= t.Number(h) {
      AncestorIsLighter(t, h, t.Number(last));
    }
  }

  /** With the difficulty equal to the number, a reorganisation always goes exactly one block higher, and it
      leaves the index right exactly when the new head's grandparent is the old head's parent. */
  lemma ReorgGoesOneUp(t: Tree, last: Hash, tip: Hash)
    requires t.Ok() && DifficultyIsNumber(t) && OnlyHeavier(t, last, tip) && tip != t.genesis
    ensures t.Number(tip) == t.Number(last) + 1
    ensures last in t.headers
    ensures ReorgIndex(t, t.Path(last), last, tip) == t.Path(tip)
      <==> last == t.genesis || t.headers[t.Parent(tip)].parentHash == t.headers[last].parentHash
  {
    var parent := t.Parent(tip);
    assert t.Linked(last);
    TriangularDifficulty(t, last);
    TriangularDifficulty(t, tip);
    TriangularDifficulty(t, parent);
    if t.Number(tip) <= t.Number(last) {
      if t.Number(tip) < t.Number(last) {
        TriangleGrows(t.Number(tip), t.Number(last));
      }
    } else if t.Number(last) < t.Number(parent) {
      TriangleGrows(t.Number(last), t.Number(parent));
    }
    ReorgIndexExact(t, last, tip);
    if last != t.genesis {
      GenesisIsRoot(t, last);
      GenesisIsRoot(t, parent);
      assert t.Linked(parent);
      assert t.Ancestor(parent, t.Number(last) - 1) == t.Parent(parent);
    }
  }

  /** Two branches of two blocks above the genesis, and a third block on the second branch. */
  function TwoBranches(): Tree {
    Tree(map[1 := Header(1, 0, 0, 0), 2 := Header(2, 1, 1, 1), 3 := Header(3, 2, 2, 2),
             4 := Header(4, 1, 1, 1), 5 := Header(5, 4, 2, 2), 6 := Header(6, 5, 3, 3)],
         map[1 := 0, 2 := 1, 3 := 3, 4 := 1, 5 := 3, 6 := 6], 1)
  }

  /** A chain that switches to a branch two blocks deep keeps the old hash at the lower height. */
  lemma DeepReorgExample()
    ensures var t := TwoBranches();
      && t.Ok() && DifficultyIsNumber(t) && OnlyHeavier(t, 3, 6)
      && 1 in ReorgIndex(t, t.Path(3), 3, 6) && ReorgIndex(t, t.Path(3), 3, 6)[1] == 2
      && t.Path(6)[1] == 4
  {
    var t := TwoBranches();
    assert t.Ok() by {
      assert t.Linked(1) && t.Linked(2) && t.Linked(3) && t.Linked(4) && t.Linked(5) && t.Linked(6);
    }
    assert t.Ancestor(3, 1) == t.Ancestor(2, 1) == 2;
    assert t.Ancestor(6, 1) == t.Ancestor(5, 1) == t.Ancestor(4, 1) == 4;
    LeftoverIndex(t, t.Path(3), 3, 6, 1);
  }

  // ----- The blockchain object -----

  /** The height where two chains split. */
  ghost predicate IsFork(t: Tree, a: Hash, b: Hash, f: nat)
    requires t.Ok() && a in t.tds && b in t.tds
  {
    && f <= t.Number(a) && f <= t.Number(b)
    && t.Ancestor(a, f) == t.Ancestor(b, f)
    && (f < t.Number(a) && f < t.Number(b) ==> t.Ancestor(a, f + 1) != t.Ancestor(b, f + 1))
  }

  /** The headers in s are the ancestors of h at the heights from..from - |s| + 1. */
  ghost predicate Descends(t: Tree, h: Hash, from: nat, s: seq<Header>)
    requires t.Ok() && h in t.tds
  {
    && from <= t.Number(h) && |s| <= from + 1
    && forall i :: 0 <= i < |s| ==> s[i].hash == t.Ancestor(h, from - i) && s[i].number == from - i
  }

  /** Chains that split below the height m split at the same place when both are cut at m. */
  lemma ForkOfCut(t: Tree, a: Hash, b: Hash, m: nat, f: nat)
    requires t.Ok() && a in t.tds && b in t.tds && m <= t.Number(a) && m <= t.Number(b)
    requires m == t.Number(a) || m == t.Number(b)
    requires IsFork(t, t.Ancestor(a, m), t.Ancestor(b, m), f)
    ensures IsFork(t, a, b, f)
  {
    AncestorOfAncestor(t, a, m, f);
    AncestorOfAncestor(t, b, m, f);
    if f < m {
      AncestorOfAncestor(t, a, m, f + 1);
      AncestorOfAncestor(t, b, m, f + 1);
    }
  }

  lemma {:induction false} JoinDescends(t: Tree, h: Hash, from: nat, s: seq<Header>, m: nat, r: seq<Header>)
    requires t.Ok() && h in t.tds && from == t.Number(h) - 1 && m <= t.Number(h)
    requires Descends(t, h, from, s) && |s| == t.Number(h) - m
    requires m > 0 ==> Descends(t, t.Ancestor(h, m), m - 1, r)
    requires m == 0 ==> r == []
    ensures Descends(t, h, from, s + r)
  {
    forall i | 0 <= i < |r| ensures r[i].hash == t.Ancestor(h, m - 1 - i) {
      AncestorOfAncestor(t, h, m, m - 1 - i);
    }
  }

  /** The entries of a chain of headers, written into the index one by one. */
  ghost function Indexed(index: map<nat, Hash>, chain: seq<Header>): map<nat, Hash> {
    if chain == [] then index
    else Indexed(index, chain[..|chain| - 1])[chain[|chain| - 1].number := chain[|chain| - 1].hash]
  }

  lemma {:induction false} IndexedAt(t: Tree, index: map<nat, Hash>, h: Hash, from: nat, chain: seq<Header>, n: nat)
    requires t.Ok() && h in t.tds && Descends(t, h, from, chain)
    ensures n in Indexed(index, chain) <==> n in index || from - |chain| < n <= from
    ensures n in Indexed(index, chain) ==>
      Indexed(index, chain)[n] == if from - |chain| < n <= from then t.Ancestor(h, n) else index[n]
  {
    if chain != [] {
      var k := |chain| - 1;
      IndexedAt(t, index, h, from, chain[..k], n);
      assert chain[k].number == from - k && chain[k].hash == t.Ancestor(h, from - k);
    }
  }

  lemma IndexedReorg(t: Tree, index: map<nat, Hash>, last: Header, tip: Header, chain: seq<Header>)
    requires t.Ok() && last.hash in t.tds && tip.hash in t.tds && tip.number > 0
    requires last.number == t.Number(last.hash) && tip.number == t.Number(tip.hash)
    requires Descends(t, tip.hash, tip.number - 1, chain)
    requires |chain| == if last.number < tip.number then tip.number - last.number else 0
    ensures Indexed(index, chain)[tip.number := tip.hash] == ReorgIndex(t, index, last.hash, tip.hash)
  {
    forall n: nat
      ensures n in Indexed(index, chain) <==> n in index || tip.number - 1 - |chain| < n <= tip.number - 1
      ensures n in Indexed(index, chain) ==>
        Indexed(index, chain)[n]
        == if tip.number - 1 - |chain| < n <= tip.number - 1 then t.Ancestor(tip.hash, n) else index[n]
    {
      IndexedAt(t, index, tip.hash, tip.number - 1, chain, n);
    }
  }

  /** The headers of the old chain above the fork, its head at the end. */
  ghost predicate Removed(t: Tree, last: Header, tip: Header, removed: seq<Header>, f: nat)
    requires t.Ok() && last.hash in t.tds && tip.hash in t.tds
  {
    && IsFork(t, last.hash, tip.hash, f) && |removed| == t.Number(last.hash) - f > 0
    && removed[|removed| - 1] == last
    && Descends(t, last.hash, t.Number(last.hash) - 1, removed[..|removed| - 1])
  }

  ghost predicate In(t: Tree, h: Header) {
    h.hash in t.tds && h.hash in t.headers && t.headers[h.hash] == h
  }

  ghost predicate KeyedByHash(headers: map<Hash, Header>) {
    forall h :: h in headers ==> headers[h].hash == h && h != ZERO_HASH
  }

  /** A header without a total difficulty leaves the tree as it is. */
  lemma AddHeaderOk(t: Tree, header: Header)
    requires t.Ok() && (header.hash in t.headers ==> t.headers[header.hash] == header)
    ensures t.(headers := t.headers[header.hash := header]).Ok()
  {
    var t' := t.(headers := t.headers[header.hash := header]);
    forall h | h in t'.tds ensures t'.Linked(h) {
      assert t.Linked(h);
    }
  }

  lemma RemovedBranch(t: Tree, last: Header, tip: Header, m: nat, above: seq<Header>, below: seq<Header>, f: nat)
    requires t.Ok() && last.hash in t.tds && tip.hash in t.tds
    requires last.number == t.Number(last.hash) && tip.number == t.Number(tip.hash)
    requires m == if tip.number < last.number then tip.number else last.number
    requires last.number <= tip.number ==> t.Ancestor(tip.hash, last.number) != last.hash
    requires |above| == last.number - m && (last.number > 0 ==> Descends(t, last.hash, last.number - 1, above))
    requires f <= m && |below| == m - f && IsFork(t, t.Ancestor(last.hash, m), t.Ancestor(tip.hash, m), f)
    requires m > 0 ==> Descends(t, t.Ancestor(last.hash, m), m - 1, below)
    ensures var chain := above + below; chain != [] && Removed(t, last, tip, chain[..|chain| - 1] + [last], f)
  {
    ForkOfCut(t, last.hash, tip.hash, m, f);
    var chain := above + below;
    assert f < last.number;
    JoinDescends(t, last.hash, last.number - 1, above, m, below);
    assert (chain[..|chain| - 1] + [last])[..|chain| - 1] == chain[..|chain| - 1];
  }

  /** The new header's parent is in the tree, the header is not, and the old head is not below it. */
  ghost predicate Aside(t: Tree, last: Header, tip: Header) {
    && t.Ok() && In(t, last) && Unclashing(t, tip)
    && tip.parentHash in t.tds && tip.hash !in t.tds && tip.difficulty > 0
    && (last.number <= t.Number(tip.parentHash) ==> t.Ancestor(tip.parentHash, last.number) != last.hash)
  }

  /** Only a header that is new can be heavier than the heaviest, and the heaviest is below no other. */
  lemma HeavierIsAside(t: Tree, last: Header, tip: Header)
    requires t.Ok() && In(t, last) && Unclashing(t, tip) && tip.parentHash in t.tds && tip.parentHash != last.hash
    requires t.tds[last.hash] < t.tds[tip.parentHash] + tip.difficulty
    requires forall h :: h in t.tds ==> t.tds[h] <= t.tds[last.hash]
    ensures Aside(t, last, tip)
    ensures Fits(t, tip) <==> tip.number == t.Number(tip.parentHash) + 1
  {
    assert t.Linked(last.hash) && t.Linked(tip.parentHash);
    if tip.hash in t.tds {
      KnownFits(t, tip);
    }
    HeadIsNotBelow(t, last.hash, tip.parentHash);
  }

  /** The walks of handleReorg from a header whose number does not continue its parent end at one header. */
  ghost predicate Meets(t: Tree, last: Header, tip: Header)
    requires t.Ok() && tip.parentHash in t.tds
  {
    last.number < tip.number && last.number <= t.Number(tip.parentHash)
  }

  /** The headers passed on the way down from the new header to the height of the old head, its parent first; none
      if the new header is not higher. */
  ghost predicate NewBranch(t: Tree, last: Header, tip: Header, chain: seq<Header>)
    requires t.Ok() && tip.parentHash in t.tds
  {
    var k := t.Number(tip.parentHash);
    && |chain| == (if last.number < tip.number && last.number <= k then k - last.number + 1 else 0)
    && forall i :: 0 <= i < |chain| ==> chain[i].number == k - i && chain[i].hash == t.Ancestor(tip.parentHash, k - i)
  }

  lemma ExtendedAncestor(t: Tree, tip: Header, n: nat)
    requires t.Ok() && Fits(t, tip) && tip.parentHash in t.tds && tip.hash !in t.tds && n <= t.Number(tip.parentHash)
    ensures Extend(t, tip).Ok() && Grows(t, Extend(t, tip)) && tip.hash != t.genesis
    ensures var t' := Extend(t, tip);
      t'.Number(tip.hash) == t.Number(tip.parentHash) + 1 && t'.Ancestor(tip.hash, n) == t.Ancestor(tip.parentHash, n)
  {
    ExtendOk(t, tip);
    var t' := Extend(t, tip);
    assert t'.Linked(tip.hash) && t.Linked(tip.parentHash);
    GrowsKeepsAncestors(t, t', tip.parentHash, n);
  }

  lemma GrowsDescends(t: Tree, t': Tree, h: Hash, from: nat, s: seq<Header>)
    requires t.Ok() && t'.Ok() && Grows(t, t') && h in t.tds && Descends(t, h, from, s)
    ensures Descends(t', h, from, s)
  {
    GrowsKeepsAncestors(t, t', h, 0);
    forall i | 0 <= i < |s| ensures s[i].hash == t'.Ancestor(h, from - i) {
      GrowsKeepsAncestors(t, t', h, from - i);
    }
  }

  lemma GrowsFork(t: Tree, t': Tree, a: Hash, b: Hash, f: nat)
    requires t.Ok() && t'.Ok() && Grows(t, t') && a in t.tds && b in t.tds && IsFork(t, a, b, f)
    ensures IsFork(t', a, b, f)
  {
    GrowsKeepsAncestors(t, t', a, f);
    GrowsKeepsAncestors(t, t', b, f);
    if f < t.Number(a) && f < t.Number(b) {
      GrowsKeepsAncestors(t, t', a, f + 1);
      GrowsKeepsAncestors(t, t', b, f + 1);
    }
  }

  lemma FitsAside(t: Tree, last: Header, tip: Header)
    requires Aside(t, last, tip) && tip.number == t.Number(tip.parentHash) + 1
    ensures Fits(t, tip)
  {
    assert t.Linked(tip.parentHash);
  }

  /** The new header is higher than the old head: the fork found below it, seen in the tree with the header. */
  lemma ForkInExtended(t: Tree, last: Header, tip: Header, n: Header, f: nat, below: seq<Header>)
    requires Aside(t, last, tip) && tip.number == t.Number(tip.parentHash) + 1 && last.number < tip.number
    requires In(t, n) && n.number == last.number && n.hash == t.Ancestor(tip.parentHash, n.number)
    requires f <= last.number && IsFork(t, last.hash, n.hash, f) && |below| == last.number - f
    requires last.number > 0 ==> Descends(t, last.hash, last.number - 1, below)
    ensures Extend(t, tip).Ok() && below != []
    ensures Removed(Extend(t, tip), last, tip, below[..|below| - 1] + [last], f)
  {
    assert t.Linked(last.hash) && t.Linked(n.hash);
    FitsAside(t, last, tip);
    ExtendedAncestor(t, tip, last.number);
    var t' := Extend(t, tip);
    GrowsKeepsAncestors(t, t', last.hash, last.number);
    GrowsFork(t, t', last.hash, n.hash, f);
    if last.number > 0 {
      GrowsDescends(t, t', last.hash, last.number - 1, below);
    }
    assert t'.Linked(tip.hash);
    RemovedBranch(t', last, tip, last.number, [], below, f);
    assert [] + below == below;
  }

  /** The new header is not higher than the old head. */
  lemma ForkBelowExtended(t: Tree, last: Header, tip: Header, o: Header, x: Header, above: seq<Header>,
                          rest: seq<Header>, f: nat)
    requires Aside(t, last, tip) && tip.number == t.Number(tip.parentHash) + 1 <= last.number
    requires In(t, o) && o.number == tip.number && o.hash == t.Ancestor(last.hash, o.number)
    requires |above| == last.number - tip.number && Descends(t, last.hash, last.number - 1, above)
    requires In(t, x) && o.hash != t.genesis && x.hash == t.Parent(o.hash) && x.number == o.number - 1
    requires f <= x.number && IsFork(t, x.hash, tip.parentHash, f) && |rest| == x.number - f
    requires x.number > 0 ==> Descends(t, x.hash, x.number - 1, rest)
    ensures Extend(t, tip).Ok()
    ensures var chain := above + ([x] + rest);
      chain != [] && Removed(Extend(t, tip), last, tip, chain[..|chain| - 1] + [last], f)
  {
    var t' := Extend(t, tip);
    FitsAside(t, last, tip);
    OldChainExtended(t, last, tip, above);
    StepDescends(t, o, x, rest);
    ForkPieces(t, last, tip, o, x, rest, f);
    RemovedBranch(t', last, tip, tip.number, above, [x] + rest, f);
  }

  lemma OldChainExtended(t: Tree, last: Header, tip: Header, above: seq<Header>)
    requires Aside(t, last, tip) && Fits(t, tip) && 0 < tip.number <= last.number
    requires Descends(t, last.hash, last.number - 1, above)
    ensures var t' := Extend(t, tip);
      && t'.Ok() && last.hash in t'.tds && tip.hash in t'.tds
      && t'.Number(last.hash) == last.number && t'.Number(tip.hash) == tip.number
      && t'.Ancestor(last.hash, tip.number) == t.Ancestor(last.hash, tip.number)
      && Descends(t', last.hash, last.number - 1, above)
  {
    assert t.Linked(last.hash) && t.Linked(tip.parentHash);
    ExtendedAncestor(t, tip, 0);
    var t' := Extend(t, tip);
    assert t'.Linked(tip.hash) && t'.Linked(last.hash);
    GrowsKeepsAncestors(t, t', last.hash, tip.number);
    GrowsDescends(t, t', last.hash, last.number - 1, above);
  }

  lemma ForkPieces(t: Tree, last: Header, tip: Header, o: Header, x: Header, rest: seq<Header>, f: nat)
    requires Aside(t, last, tip) && Fits(t, tip)
    requires In(t, o) && In(t, x) && o.hash != t.genesis && x.hash == t.Parent(o.hash) && x.number == o.number - 1
    requires o.number == tip.number && f <= x.number && IsFork(t, x.hash, tip.parentHash, f)
    requires Descends(t, o.hash, o.number - 1, [x] + rest)
    ensures var t' := Extend(t, tip);
      && t'.Ok() && o.hash in t'.tds && tip.hash in t'.tds
      && IsFork(t', o.hash, tip.hash, f) && Descends(t', o.hash, o.number - 1, [x] + rest)
  {
    ExtendedAncestor(t, tip, 0);
    GrowsDescends(t, Extend(t, tip), o.hash, o.number - 1, [x] + rest);
    StepFork(t, Extend(t, tip), tip, o, x, f);
  }

  lemma StepDescends(t: Tree, o: Header, x: Header, rest: seq<Header>)
    requires t.Ok() && In(t, o) && In(t, x) && o.hash != t.genesis && x.hash == t.Parent(o.hash)
    requires x.number == o.number - 1
    requires |rest| <= x.number && (x.number > 0 ==> Descends(t, x.hash, x.number - 1, rest))
    ensures Descends(t, o.hash, o.number - 1, [x] + rest)
  {
    assert t.Linked(o.hash) && t.Linked(x.hash);
    forall i | 0 <= i < |rest| + 1 ensures ([x] + rest)[i].hash == t.Ancestor(o.hash, o.number - 1 - i) {
      AncestorOfAncestor(t, o.hash, x.number, o.number - 1 - i);
    }
  }

  lemma StepFork(t: Tree, t': Tree, tip: Header, o: Header, x: Header, f: nat)
    requires t.Ok() && Fits(t, tip) && tip.parentHash in t.tds && tip.hash !in t.tds && t' == Extend(t, tip) && t'.Ok()
    requires Grows(t, t')
    requires In(t, o) && In(t, x) && o.hash != t.genesis && x.hash == t.Parent(o.hash) && x.number == o.number - 1
    requires o.number == tip.number && f <= x.number && IsFork(t, x.hash, tip.parentHash, f)
    ensures o.hash in t'.tds && tip.hash in t'.tds && IsFork(t', o.hash, tip.hash, f)
  {
    assert t.Linked(o.hash) && t.Linked(x.hash) && t.Linked(tip.parentHash) && t'.Linked(tip.hash);
    ExtendedAncestor(t, tip, f);
    GrowsKeepsAncestors(t, t', o.hash, f);
    AncestorOfAncestor(t, o.hash, x.number, f);
    if f < x.number {
      ExtendedAncestor(t, tip, f + 1);
      GrowsKeepsAncestors(t, t', o.hash, f + 1);
      AncestorOfAncestor(t, o.hash, x.number, f + 1);
    }
  }

  /** The index that the walks lead to is the one of ReorgIndex in the tree with the header. */
  lemma ReorgInExtended(t: Tree, index: map<nat, Hash>, last: Header, tip: Header, chain: seq<Header>)
    requires Aside(t, last, tip) && tip.number == t.Number(tip.parentHash) + 1 && NewBranch(t, last, tip, chain)
    ensures Extend(t, tip).Ok()
    ensures Indexed(index, chain)[tip.number := tip.hash] == ReorgIndex(Extend(t, tip), index, last.hash, tip.hash)
  {
    assert t.Linked(last.hash) && t.Linked(tip.parentHash);
    FitsAside(t, last, tip);
    ExtendedAncestor(t, tip, 0);
    var t' := Extend(t, tip);
    assert t'.Linked(tip.hash);
    GrowsKeepsAncestors(t, t', last.hash, 0);
    forall i | 0 <= i < |chain| ensures chain[i].hash == t'.Ancestor(tip.hash, tip.number - 1 - i) {
      ExtendedAncestor(t, tip, tip.number - 1 - i);
    }
    IndexedReorg(t', index, last, tip, chain);
  }

  /** What writing a header that does not fit does. */
  ghost predicate Misplaced(t: Tree, t': Tree, index: map<nat, Hash>, index': map<nat, Hash>,
                            head: Header, head': Header, header: Header, ok: bool)
    requires t.Ok() && head.hash in t.tds
  {
    if header.parentHash !in t.tds then
      !ok && t' == t.(headers := t.headers[header.hash := header]) && head' == head && index' == index
    else
      && t' == Extend(t, header)
      && if header.parentHash == head.hash then ok && head' == header && index' == index[header.number := header.hash]
         else if t.tds[header.parentHash] + header.difficulty <= t.tds[head.hash] then
           ok && head' == head && index' == index
         else
           && (ok <==> Meets(t, head, header))
           && head' == (if ok then header else head)
           && if !ok then index' == index
              else
                exists chain :: NewBranch(t, head, header, chain)
                                && index' == Indexed(index, chain)[header.number := header.hash]
  }

  /** What writing a header does. Without a known parent difficulty only the header is stored. Otherwise the
      header joins the tree, and the head and the index follow it exactly when it is heavier than the head. */
  ghost predicate Written(t: Tree, t': Tree, index: map<nat, Hash>, index': map<nat, Hash>,
                          head: Header, head': Header, header: Header, ok: bool)
    requires t.Ok() && t'.Ok() && head.hash in t.tds
  {
    && (ok <==> header.parentHash in t.tds)
    && t' == (if ok then Extend(t, header) else t.(headers := t.headers[header.hash := header]))
    && (head.hash in t'.tds && (ok ==> header.hash in t'.tds))
    && if ok && t.tds[head.hash] < t'.tds[header.hash]
       then head' == header && index' == ReorgIndex(t', index, head.hash, header.hash)
       else head' == head && index' == index
  }

  lemma WrittenGrows(t: Tree, t': Tree, index: map<nat, Hash>, index': map<nat, Hash>,
                     head: Header, head': Header, header: Header, ok: bool)
    requires t.Ok() && t'.Ok() && head.hash in t.tds && Fits(t, header)
    requires Written(t, t', index, index', head, head', header, ok)
    ensures Grows(t, t') && (forall h :: h in t.tds ==> t'.tds[h] == t.tds[h])
  {
    if ok {
      ExtendOk(t, header);
    }
  }

  /** The head and the index after writing a header whose difficulty is its number. */
  lemma WrittenHead(t: Tree, t': Tree, index: map<nat, Hash>, index': map<nat, Hash>,
                    head: Header, head': Header, header: Header, ok: bool)
    requires t.Ok() && t'.Ok() && head.hash in t.tds && head.hash in t.headers && t.headers[head.hash] == head
    requires Fits(t, header) && DifficultyIsNumber(t) && header.difficulty == header.number
    requires forall h :: h in t.tds ==> t.tds[h] <= t.tds[head.hash]
    requires Written(t, t', index, index', head, head', header, ok)
    ensures DifficultyIsNumber(t')
    ensures head' == if ok && header.number == head.number + 1 then header else head
    ensures index == t.Path(head.hash) ==>
      (index' == t'.Path(head'.hash)
       <==> || head' == head
            || head.hash == t.genesis
            || (header.parentHash in t'.headers && t'.headers[header.parentHash].parentHash == head.parentHash))
  {
    WrittenGrows(t, t', index, index', head, head', header, ok);
    GrowsKeepsPath(t, t', head.hash);
    if ok {
      assert t'.Linked(header.hash) && t'.Linked(head.hash);
      TriangularDifficulty(t', header.hash);
      TriangularDifficulty(t', head.hash);
      if t.tds[head.hash] < t'.tds[header.hash] {
        ReorgGoesOneUp(t', head.hash, header.hash);
      } else if head.number < header.number {
        TriangleGrows(head.number, header.number);
      }
    }
  }

  class Blockchain {
    // The key-value store.
    var headers: map<Hash, Header>
    var tds: map<Hash, nat>
    var canonical: map<nat, Hash>
    var headHash: Hash
    var headNumber: nat
    // The caches.
    var headersCache: map<Hash, Header>
    var difficultyCache: map<Hash, nat>
    // The references held in memory.
    var genesis: Hash
    var currentHeader: Header
    var currentDifficulty: nat

    ghost function View(): Tree
      reads `headers, `tds, `genesis
    {
      Tree(headers, tds, genesis)
    }

    ghost predicate CachesAgree()
      reads `headers, `tds, `headersCache, `difficultyCache
    {
      && (forall h :: h in headersCache ==> h in headers && headersCache[h] == headers[h])
      && (forall h :: h in difficultyCache ==> h in tds && difficultyCache[h] == tds[h])
    }

    /** The headers of a tree are in the store. */
    ghost predicate Includes(t: Tree)
      reads `headers
    {
      forall h :: h in t.headers ==> h in headers && headers[h] == t.headers[h]
    }

    ghost predicate Holds(h: Header)
      reads `headers, `tds
    {
      h.hash in tds && h.hash in headers && headers[h.hash] == h
    }

    /** The head in memory, in the store and in the index is one header, and none is heavier. */
    ghost predicate HeadIsHeaviest()
      reads `headers, `tds, `canonical, `headHash, `headNumber, `currentHeader, `currentDifficulty
    {
      && Holds(currentHeader)
      && currentDifficulty == tds[currentHeader.hash]
      && headHash == currentHeader.hash && headNumber == currentHeader.number
      && headNumber in canonical && canonical[headNumber] == headHash
      && forall h :: h in tds ==> tds[h] <= currentDifficulty
    }

    ghost predicate Valid()
      reads this
    {
      View().Ok() && CachesAgree() && HeadIsHeaviest() && KeyedByHash(headers)
    }

    constructor (header: Header)
      requires header.hash != ZERO_HASH && header.parentHash == ZERO_HASH && header.number == 0
      ensures Valid() && currentHeader == header
      ensures headers == map[header.hash := header] && tds == map[header.hash := header.difficulty]
      ensures genesis == header.hash && canonical == View().Path(header.hash)
    {
      headers, tds, canonical, headersCache, difficultyCache := map[header.hash := header], map[], map[], map[], map[];
      genesis := header.hash;
      new;
      var _ := AdvanceHead(header);
      assert View().Linked(header.hash);
    }

    method CacheHeader(hash: Hash, header: Header)
      requires CachesAgree() && hash in headers && headers[hash] == header
      modifies `headersCache
      ensures CachesAgree()
    {
      var evicted: set<Hash> := *;
      headersCache := headersCache[hash := header] - evicted;
    }

    method ReadHeader(hash: Hash) returns (r: Option<Header>)
      requires CachesAgree()
      modifies `headersCache
      ensures CachesAgree()
      ensures r == if hash in headers then Some(headers[hash]) else None
    {
      if hash in headersCache {
        return Some(headersCache[hash]);
      }
      if hash !in headers {
        return None;
      }
      CacheHeader(hash, headers[hash]);
      return Some(headers[hash]);
    }

    method ReadTotalDifficulty(hash: Hash) returns (r: Option<nat>)
      requires CachesAgree()
      modifies `difficultyCache
      ensures CachesAgree()
      ensures r == if hash in tds then Some(tds[hash]) else None
    {
      if hash in difficultyCache {
        return Some(difficultyCache[hash]);
      }
      if hash !in tds {
        return None;
      }
      var evicted: set<Hash> := *;
      difficultyCache := difficultyCache[hash := tds[hash]] - evicted;
      return Some(tds[hash]);
    }

    method PutHeader(h: Header)
      requires CachesAgree() && KeyedByHash(headers) && h.hash != ZERO_HASH
      requires h.hash in headers ==> headers[h.hash] == h
      modifies `headers
      ensures headers == old(headers)[h.hash := h] && CachesAgree() && KeyedByHash(headers)
    {
      headers := headers[h.hash := h];
    }

    method PutTotalDifficulty(hash: Hash, td: nat)
      modifies `tds
      ensures tds == old(tds)[hash := td]
      ensures old(CachesAgree()) && (hash in old(tds) ==> old(tds)[hash] == td) ==> CachesAgree()
    {
      tds := tds[hash := td];
    }

    method SetCurrentHeader(h: Header, diff: nat)
      modifies `currentHeader, `currentDifficulty
      ensures currentHeader == h && currentDifficulty == diff
    {
      currentHeader, currentDifficulty := h, diff;
    }

    /** The head, its number and its entry in the index are written first; without a difficulty of the parent that
        is all, and the error is reported. */
    method AdvanceHead(h: Header) returns (ok: bool)
      requires CachesAgree()
      modifies this
      ensures headers == old(headers) && genesis == old(genesis)
      ensures headHash == h.hash && headNumber == h.number && canonical == old(canonical)[h.number := h.hash]
      ensures ok <==> h.parentHash == ZERO_HASH || h.parentHash in old(tds)
      ensures !ok ==> CachesAgree() && tds == old(tds)
      ensures !ok ==> currentHeader == old(currentHeader) && currentDifficulty == old(currentDifficulty)
      ensures ok ==> currentHeader == h && tds == old(tds)[h.hash := currentDifficulty]
      ensures ok ==> currentDifficulty == h.difficulty + if h.parentHash == ZERO_HASH then 0 else old(tds)[h.parentHash]
      ensures ok && (h.hash in old(tds) ==> old(tds)[h.hash] == currentDifficulty) ==> CachesAgree()
    {
      headHash, headNumber := h.hash, h.number;
      canonical := canonical[h.number := h.hash];
      var newTD := h.difficulty;
      if h.parentHash != ZERO_HASH {
        var td := ReadTotalDifficulty(h.parentHash);
        if td.None? {
          return false;
        }
        newTD := newTD + td.value;
      }
      PutTotalDifficulty(h.hash, newTD);
      SetCurrentHeader(h, newTD);
      return true;
    }

    /** One step down the parent links; the header is there unless it is the one below the genesis. */
    method ReadParent(h: Header, ghost t: Tree) returns (p: Option<Header>)
      requires CachesAgree() && Includes(t) && KeyedByHash(headers) && t.Ok() && In(t, h)
      modifies `headersCache
      ensures CachesAgree() && (p.Some? <==> h.number > 0)
      ensures p.Some? ==>
        h.hash != t.genesis && In(t, p.value) && p.value.hash == t.Parent(h.hash) && p.value.number == h.number - 1
    {
      GenesisIsRoot(t, h.hash);
      assert t.Linked(h.hash);
      p := ReadHeader(h.parentHash);
      if h.number > 0 {
        assert t.Linked(h.parentHash);
      }
    }

    /** The headers below h, down to height n. */
    method Descend(h: Header, n: nat, ghost t: Tree) returns (bottom: Header, chain: seq<Header>)
      requires CachesAgree() && Includes(t) && KeyedByHash(headers) && t.Ok() && In(t, h)
      modifies `headersCache
      ensures CachesAgree() && In(t, bottom)
      ensures bottom.number == if n < h.number then n else h.number
      ensures bottom.hash == t.Ancestor(h.hash, bottom.number)
      ensures |chain| == h.number - bottom.number
      ensures h.number > 0 ==> Descends(t, h.hash, h.number - 1, chain)
    {
      bottom, chain := h, [];
      while bottom.number > n
        modifies `headersCache
        invariant CachesAgree() && In(t, bottom) && bottom.number <= h.number
        invariant bottom.number >= if n < h.number then n else h.number
        invariant bottom.hash == t.Ancestor(h.hash, bottom.number)
        invariant |chain| == h.number - bottom.number
        invariant h.number > 0 ==> Descends(t, h.hash, h.number - 1, chain)
      {
        var above := bottom;
        var parent := ReadParent(above, t);
        bottom := parent.value;
        AncestorOfAncestor(t, h.hash, above.number, bottom.number);
        chain := chain + [bottom];
      }
    }

    /** Both headers down together until they are the same one. From different heights they never are, and the
        walk ends below the genesis. */
    method Meet(a: Header, b: Header, ghost t: Tree) returns (ok: bool, f: nat, chain: seq<Header>)
      requires CachesAgree() && Includes(t) && KeyedByHash(headers) && t.Ok() && In(t, a) && In(t, b)
      modifies `headersCache
      ensures CachesAgree() && (ok <==> a.number == b.number)
      ensures ok ==> f <= a.number && IsFork(t, a.hash, b.hash, f) && |chain| == a.number - f
      ensures ok && a.number > 0 ==> Descends(t, a.hash, a.number - 1, chain)
    {
      var x, y := a, b;
      chain := [];
      while x.hash != y.hash
        modifies `headersCache
        invariant CachesAgree() && In(t, x) && In(t, y)
        invariant x.number <= a.number && y.number <= b.number && a.number - x.number == b.number - y.number == |chain|
        invariant x.hash == t.Ancestor(a.hash, x.number) && y.hash == t.Ancestor(b.hash, y.number)
        invariant x.number < a.number ==> t.Ancestor(a.hash, x.number + 1) != t.Ancestor(b.hash, y.number + 1)
        invariant a.number > 0 ==> Descends(t, a.hash, a.number - 1, chain)
        decreases x.number
      {
        GenesisIsRoot(t, x.hash);
        GenesisIsRoot(t, y.hash);
        var down := ReadParent(x, t);
        if down.None? {
          return false, 0, [];
        }
        var other := ReadParent(y, t);
        if other.None? {
          return false, 0, [];
        }
        AncestorOfAncestor(t, a.hash, x.number, x.number - 1);
        AncestorOfAncestor(t, b.hash, y.number, y.number - 1);
        x, y := down.value, other.value;
        chain := chain + [x];
      }
      return true, x.number, chain;
    }

    method WriteCanonicalHashes(chain: seq<Header>)
      modifies `canonical
      ensures canonical == Indexed(old(canonical), chain)
    {
      for i := 0 to |chain|
        invariant canonical == Indexed(old(canonical), chain[..i])
      {
        assert chain[..i + 1][..i] == chain[..i];
        canonical := canonical[chain[i].number := chain[i].hash];
      }
      assert chain[..|chain|] == chain;
    }

    /** The walks of handleReorg from the old head and the new header, in the tree t without the new one. They end at
        one header if the new one continues its parent, and else exactly if Meets holds. The old chain is
        kept above the fork, with its head last, and the new one from the height of the old head up. The
        slice is never taken of an empty chain. */
    method Branches(last: Header, tip: Header, ghost t: Tree)
      returns (ok: bool, removed: seq<Header>, newChain: seq<Header>, ghost f: nat)
      requires CachesAgree() && Includes(t) && KeyedByHash(headers) && Aside(t, last, tip)
      modifies `headersCache
      ensures CachesAgree() && (ok <==> tip.number == t.Number(tip.parentHash) + 1 || Meets(t, last, tip))
      ensures ok ==> NewBranch(t, last, tip, newChain)
      ensures tip.number == t.Number(tip.parentHash) + 1 ==>
        Extend(t, tip).Ok() && Removed(Extend(t, tip), last, tip, removed, f)
    {
      assert t.Linked(tip.parentHash) && t.Linked(last.hash);
      var o, above := Descend(last, tip.number, t);
      var parent := ReadHeader(tip.parentHash);
      var p := parent.value;
      f, removed, newChain := 0, [], [];
      var below;
      if tip.number > o.number {
        var n, rest := Descend(p, o.number, t);
        newChain := [p] + rest;
        ok, f, below := MeetAbove(o, n, last, tip, above, t);
      } else {
        ok, f, below := MeetBelow(o, p, last, tip, above, t);
      }
      if ok {
        var oldChain := above + below;
        removed := oldChain[..|oldChain| - 1] + [last];
      }
    }

    /** The last walk when the new chain was cut to the height of the old one. */
    method MeetAbove(o: Header, n: Header, ghost last: Header, ghost tip: Header, ghost above: seq<Header>,
                     ghost t: Tree)
      returns (ok: bool, ghost f: nat, below: seq<Header>)
      requires CachesAgree() && Includes(t) && KeyedByHash(headers) && Aside(t, last, tip) && o == last && above == []
      requires last.number < tip.number && In(t, n) && n.number <= last.number
      requires n.number == Min(last.number, t.Number(tip.parentHash)) && n.hash == t.Ancestor(tip.parentHash, n.number)
      modifies `headersCache
      ensures CachesAgree() && (ok <==> last.number <= t.Number(tip.parentHash))
      ensures ok ==> above + below != []
      ensures tip.number == t.Number(tip.parentHash) + 1 ==>
        && Extend(t, tip).Ok()
        && Removed(Extend(t, tip), last, tip, (above + below)[..|above + below| - 1] + [last], f)
    {
      var meet;
      ok, meet, below := Meet(o, n, t);
      f := meet;
      if tip.number == t.Number(tip.parentHash) + 1 {
        ForkInExtended(t, last, tip, n, f, below);
      }
    }

    /** The last walk when the old chain was cut to the height of the new header. */
    method MeetBelow(o: Header, p: Header, ghost last: Header, ghost tip: Header, ghost above: seq<Header>,
                     ghost t: Tree)
      returns (ok: bool, ghost f: nat, below: seq<Header>)
      requires CachesAgree() && Includes(t) && KeyedByHash(headers) && Aside(t, last, tip)
      requires tip.number <= last.number && In(t, o) && o.number == tip.number
      requires o.hash == t.Ancestor(last.hash, o.number)
      requires |above| == last.number - tip.number
      requires last.number > 0 ==> Descends(t, last.hash, last.number - 1, above)
      requires In(t, p) && p.hash == tip.parentHash
      modifies `headersCache
      ensures CachesAgree() && (ok <==> tip.number == t.Number(tip.parentHash) + 1)
      ensures ok ==>
        && above + below != [] && Extend(t, tip).Ok()
        && Removed(Extend(t, tip), last, tip, (above + below)[..|above + below| - 1] + [last], f)
    {
      assert t.Linked(p.hash);
      f, below := 0, [];
      var down := ReadParent(o, t);
      if down.None? {
        return false, 0, [];
      }
      var meet, rest;
      ok, meet, rest := Meet(down.value, p, t);
      f, below := meet, [down.value] + rest;
      if ok {
        ForkBelowExtended(t, last, tip, o, down.value, above, rest, f);
      }
    }

    /** The index takes over the new chain from the height of the old head up, the head moves to the new
        header, and the event lists the removed branch. */
    method HandleReorg(last: Header, tip: Header, ghost t: Tree)
      returns (ok: bool, removed: seq<Header>, added: seq<Header>, ghost f: nat)
      requires CachesAgree() && KeyedByHash(headers) && Aside(t, last, tip) && View() == Extend(t, tip) && Includes(t)
      modifies this
      ensures CachesAgree() && View() == old(View())
      ensures ok <==> tip.number == t.Number(tip.parentHash) + 1 || Meets(t, last, tip)
      ensures !ok ==> canonical == old(canonical) && headHash == old(headHash) && headNumber == old(headNumber)
      ensures !ok ==> currentHeader == old(currentHeader) && currentDifficulty == old(currentDifficulty)
      ensures ok ==> headHash == tip.hash && headNumber == tip.number
      ensures ok ==> currentHeader == tip && currentDifficulty == tds[tip.hash]
      ensures ok ==> added != [] && added[0] == tip && NewBranch(t, last, tip, added[1..])
      ensures ok ==> canonical == Indexed(old(canonical), added[1..])[tip.number := tip.hash]
      ensures tip.number == t.Number(tip.parentHash) + 1 ==>
        && View().Ok() && Removed(View(), last, tip, removed, f)
        && canonical == ReorgIndex(View(), old(canonical), last.hash, tip.hash)
    {
      added := [];
      var newChain;
      ok, removed, newChain, f := Branches(last, tip, t);
      if !ok {
        return;
      }
      added := [tip] + newChain;
      WriteCanonicalHashes(newChain);
      if tip.number == t.Number(tip.parentHash) + 1 {
        ReorgInExtended(t, old(canonical), last, tip, newChain);
      }
      var _ := AdvanceHead(tip);
    }

    method WriteCanonicalHeader(h: Header)
      requires Valid() && Unclashing(View(), h) && h.parentHash == currentHeader.hash
      modifies this
      ensures View() == Extend(old(View()), h) && currentHeader == h && KeyedByHash(headers) && CachesAgree()
      ensures currentDifficulty == tds[h.hash] && headHash == h.hash && headNumber == h.number
      ensures canonical == old(canonical)[h.number := h.hash]
      ensures Fits(old(View()), h) ==> Valid() && h.hash !in old(tds)
    {
      var incoming := StoreHeader(h);
      headHash, headNumber := h.hash, h.number;
      canonical := canonical[h.number := h.hash];
      SetCurrentHeader(h, incoming.value);
    }

    /** The header, and its total difficulty if the parent's is known, into the store. */
    method StoreHeader(header: Header) returns (incoming: Option<nat>)
      requires View().Ok() && CachesAgree() && KeyedByHash(headers) && Unclashing(View(), header)
      modifies `headers, `tds, `headersCache, `difficultyCache
      ensures CachesAgree() && KeyedByHash(headers)
      ensures incoming.Some? <==> header.parentHash in old(tds)
      ensures incoming.None? ==> View() == old(View()).(headers := old(headers)[header.hash := header]) && View().Ok()
      ensures incoming.Some? ==> View() == Extend(old(View()), header) && incoming.value == tds[header.hash]
      ensures Fits(old(View()), header) ==> View().Ok()
      ensures forall h :: h in old(tds) ==> h in tds && tds[h] == old(tds)[h]
    {
      ghost var t := View();
      AddHeaderOk(t, header);
      PutHeader(header);
      var parentTD := ReadTotalDifficulty(header.parentHash);
      if parentTD.None? {
        return None;
      }
      if Fits(t, header) {
        ExtendOk(t, header);
      }
      if header.hash in t.tds {
        KnownFits(t, header);
      }
      incoming := Some(parentTD.value + header.difficulty);
      PutTotalDifficulty(header.hash, incoming.value);
      CacheHeader(header.hash, header);
    }

    /** A header that is not on top of the head, into the store; the head follows it if it is heavier. */
    method WriteSideHeader(header: Header) returns (ok: bool)
      requires Valid() && Unclashing(View(), header) && header.parentHash != currentHeader.hash
      modifies this
      ensures Fits(old(View()), header) ==> Valid()
      ensures Fits(old(View()), header) ==>
        Written(old(View()), View(), old(canonical), canonical, old(currentHeader), currentHeader, header, ok)
      ensures !Fits(old(View()), header) ==>
        Misplaced(old(View()), View(), old(canonical), canonical, old(currentHeader), currentHeader, header, ok)
    {
      ghost var t := View();
      var last := currentHeader;
      var incoming := StoreHeader(header);
      var current := ReadTotalDifficulty(last.hash);
      ok := incoming.Some?;
      if ok && incoming.value > current.value {
        ok := ReorgTo(header, t);
      }
    }

    /** The head moves to the one header that is heavier, if the walks meet. */
    method ReorgTo(tip: Header, ghost t: Tree) returns (ok: bool)
      requires CachesAgree() && KeyedByHash(headers) && Unclashing(t, tip) && t.Ok() && In(t, currentHeader)
      requires tip.parentHash in t.tds && tip.parentHash != currentHeader.hash && View() == Extend(t, tip)
      requires t.tds[currentHeader.hash] < tds[tip.hash]
      requires forall h :: h in t.tds ==> t.tds[h] <= t.tds[currentHeader.hash]
      modifies this
      ensures View() == old(View()) && CachesAgree() && (ok <==> Fits(t, tip) || Meets(t, old(currentHeader), tip))
      ensures currentHeader == if ok then tip else old(currentHeader)
      ensures !ok ==> canonical == old(canonical)
      ensures ok ==>
        exists chain :: NewBranch(t, old(currentHeader), tip, chain)
                        && canonical == Indexed(old(canonical), chain)[tip.number := tip.hash]
      ensures Fits(t, tip) ==> View().Ok() && HeadIsHeaviest()
      ensures Fits(t, tip) ==> canonical == ReorgIndex(View(), old(canonical), old(currentHeader.hash), tip.hash)
    {
      HeavierIsAside(t, currentHeader, tip);
      var removed, added;
      ghost var f;
      ok, removed, added, f := HandleReorg(currentHeader, tip, t);
    }

    /** A header that fits keeps all the invariants. One whose number does not continue its parent, or without a
        difficulty, is stored all the same; it becomes the head on top of the head, or if it is heavier and the
        walks meet. */
    method WriteHeaderImpl(header: Header) returns (ok: bool)
      requires Valid() && Unclashing(View(), header)
      modifies this
      ensures Fits(old(View()), header) ==> Valid()
      ensures Fits(old(View()), header) ==>
        Written(old(View()), View(), old(canonical), canonical, old(currentHeader), currentHeader, header, ok)
      ensures !Fits(old(View()), header) ==>
        Misplaced(old(View()), View(), old(canonical), canonical, old(currentHeader), currentHeader, header, ok)
    {
      if header.parentHash == currentHeader.hash {
        WriteOnTop(header);
        return true;
      }
      ok := WriteSideHeader(header);
    }

    method WriteOnTop(header: Header)
      requires Valid() && Unclashing(View(), header) && header.parentHash == currentHeader.hash
      modifies this
      ensures Fits(old(View()), header) ==> Valid()
      ensures Fits(old(View()), header) ==>
        Written(old(View()), View(), old(canonical), canonical, old(currentHeader), currentHeader, header, true)
      ensures !Fits(old(View()), header) ==>
        Misplaced(old(View()), View(), old(canonical), canonical, old(currentHeader), currentHeader, header, true)
    {
      assert View().Linked(currentHeader.hash);
      WriteCanonicalHeader(header);
      if Fits(old(View()), header) {
        assert View().Linked(header.hash);
        ExtendingHead(View(), old(canonical), header.parentHash, header.hash);
      }
    }

    /** Writing a block, where verified stands for the checks other than those on the parent link and the
        difficulty. The head's number never goes down and moves by at most one; the new header is adopted
        exactly when it is one block higher. The index stays right exactly when the adopted header's
        grandparent is the parent of the old head. */
    method WriteBlock(header: Header, verified: bool) returns (ok: bool)
      requires Valid() && DifficultyIsNumber(View())
      requires header.hash != ZERO_HASH && (header.hash in headers ==> headers[header.hash] == header)
      modifies this
      ensures Valid() && DifficultyIsNumber(View())
      ensures ok <==>
        && header.parentHash in old(tds) && header.parentHash in old(headers)
        && header.number == old(headers)[header.parentHash].number + 1
        && header.difficulty == header.number && verified
      ensures ok ==> View() == Extend(old(View()), header)
      ensures !ok ==> tds == old(tds) && canonical == old(canonical) && genesis == old(genesis)
      ensures currentHeader ==
        if ok && header.number == old(currentHeader.number) + 1 then header else old(currentHeader)
      ensures old(canonical == View().Path(currentHeader.hash)) ==>
        (canonical == View().Path(currentHeader.hash)
         <==> || currentHeader == old(currentHeader)
              || old(currentHeader.hash) == genesis
              || (header.parentHash in headers
                  && headers[header.parentHash].parentHash == old(currentHeader.parentHash)))
    {
      var parent := ReadHeader(header.parentHash);
      if parent.None? || parent.value.hash == ZERO_HASH {
        return false;
      }
      if header.number != parent.value.number + 1 || header.parentHash != parent.value.hash {
        return false;
      }
      if header.difficulty != header.number || !verified {
        return false;
      }
      ok := WriteHeaderImpl(header);
      WrittenHead(old(View()), View(), old(canonical), canonical, old(currentHeader), currentHeader, header, ok);
    }
  }
}
