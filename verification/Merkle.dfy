/** Merkle trees whose odd levels repeat their last node (core/merkle.cpp).

    The hash of a byte string is a parameter, so that nothing is assumed about it: soundness says
    "the claimed leaf, or here are two byte strings with the same hash".
 */
module Merkle {
  import opened Bits

  type Hash = s: seq<u8> | |s| == 32 witness seq(32, _ => 0)

  type HashFunction = seq<u8> -> Hash

  /** `Hash{}`. */
  const NO_HASH: Hash := [
    0, 0, 0, 0, 0, 0, 0, 0, 0, 0, 0, 0, 0, 0, 0, 0, 0, 0, 0, 0, 0, 0, 0, 0, 0, 0, 0, 0, 0, 0, 0, 0]

  /* ---- levels, roots and paths ---- */

  function Join(a: seq<u8>, b: seq<u8>): seq<u8>
  {
    a + b
  }

  /** The 64 bytes hashed for node i of the next level. */
  function PairBytes(level: seq<Hash>, i: nat): seq<u8>
    requires 2 * i < |level|
  {
    Join(level[2 * i], if 2 * i + 1 < |level| then level[2 * i + 1] else level[2 * i])
  }

  /** The first n nodes of the next level. */
  function FirstNodes(h: HashFunction, level: seq<Hash>, n: nat): (next: seq<Hash>)
    requires n <= (|level| + 1) / 2
    ensures |next| == n
    ensures forall i :: 0 <= i < n ==> next[i] == h(PairBytes(level, i))
  {
    if n == 0 then [] else FirstNodes(h, level, n - 1) + [h(PairBytes(level, n - 1))]
  }

  function NextLevel(h: HashFunction, level: seq<Hash>): (next: seq<Hash>)
    ensures |next| == (|level| + 1) / 2
    ensures forall i :: 0 <= i < |next| ==> next[i] == h(PairBytes(level, i))
  {
    FirstNodes(h, level, (|level| + 1) / 2)
  }

  function Root(h: HashFunction, leaves: seq<Hash>): Hash
    decreases |leaves|
  {
    if leaves == [] then NO_HASH
    else if |leaves| == 1 then leaves[0]
    else Root(h, NextLevel(h, leaves))
  }

  /** The node that the one at idx is hashed with. */
  function Sibling(level: seq<Hash>, idx: nat): Hash
    requires idx < |level|
  {
    if idx % 2 == 1 then level[idx - 1]
    else if idx + 1 < |level| then level[idx + 1]
    else level[idx]
  }

  function Path(h: HashFunction, leaves: seq<Hash>, idx: nat): seq<Hash>
    requires idx < |leaves|
    decreases |leaves|
  {
    if |leaves| == 1 then [] else [Sibling(leaves, idx)] + Path(h, NextLevel(h, leaves), idx / 2)
  }

  /** The bytes hashed for a node and its sibling, the left one first. */
  function Ordered(current: Hash, sibling: Hash, idx: nat): seq<u8>
  {
    if idx % 2 == 0 then Join(current, sibling) else Join(sibling, current)
  }

  /** The root that a leaf and a proof lead to. */
  function Climb(h: HashFunction, current: Hash, proof: seq<Hash>, idx: nat): Hash
    decreases |proof|
  {
    if proof == [] then current
    else Climb(h, h(Ordered(current, proof[0], idx)), proof[1..], idx / 2)
  }

  /** The number of levels above n leaves. */
  function Depth(n: nat): nat
  {
    if n <= 1 then 0 else 1 + Depth((n + 1) / 2)
  }

  /** Depth is the base-2 logarithm, rounded up. */
  lemma {:induction false} DepthIsLog(n: nat)
    requires n > 0
    ensures n <= Pow2(Depth(n))
    ensures n > 1 ==> Pow2(Depth(n) - 1) < n
  {
    if n > 1 {
      DepthIsLog((n + 1) / 2);
      if n > 2 {
        assert Pow2(Depth(n) - 1) == 2 * Pow2(Depth(n) - 2);
      }
    }
  }

  /* ---- roots and proofs in terms of concatenated hashes ---- */

  /** The root of nothing is 32 zeros, and the root of one leaf is the leaf. */
  lemma RootOfOne(h: HashFunction, x: Hash)
    ensures Root(h, [x]) == x
    ensures forall i :: 0 <= i < 32 ==> Root(h, [])[i] == 0
  {
  }

  /** The root of two halves that are equally long powers of two is the hash of their roots, the left one
      first; by `ExpandedRoot` that decides the root of every list. */
  lemma {:induction false} RootOfHalves(h: HashFunction, a: seq<Hash>, b: seq<Hash>, k: nat)
    requires |a| == |b| == Pow2(k)
    ensures Root(h, a + b) == h(Root(h, a) + Root(h, b))
    decreases k
  {
    if k == 0 {
      TwoLeaves(h, a[0], b[0]);
      RootOfOne(h, a[0]);
      RootOfOne(h, b[0]);
      assert a == [a[0]] && b == [b[0]] && a + b == [a[0], b[0]];
    } else {
      NextOfHalves(h, a, b);
      RootOfHalves(h, NextLevel(h, a), NextLevel(h, b), k - 1);
    }
  }

  lemma TwoLeaves(h: HashFunction, x: Hash, y: Hash)
    ensures Root(h, [x, y]) == h(x + y)
  {
    assert NextLevel(h, [x, y])[0] == h(PairBytes([x, y], 0));
    hide NextLevel;
    RootOfOne(h, NextLevel(h, [x, y])[0]);
    assert NextLevel(h, [x, y]) == [NextLevel(h, [x, y])[0]];
  }

  lemma NextOfHalves(h: HashFunction, a: seq<Hash>, b: seq<Hash>)
    requires |a| % 2 == 0
    ensures NextLevel(h, a + b) == NextLevel(h, a) + NextLevel(h, b)
  {
    hide FirstNodes, PairBytes;
    var whole, parts := NextLevel(h, a + b), NextLevel(h, a) + NextLevel(h, b);
    forall i | 0 <= i < |whole|
      ensures whole[i] == parts[i]
    {
      PairOfHalves(a, b, i);
    }
  }

  lemma PairOfHalves(a: seq<Hash>, b: seq<Hash>, i: nat)
    requires |a| % 2 == 0 && 2 * i < |a + b|
    ensures PairBytes(a + b, i) == if i < |a| / 2 then PairBytes(a, i) else PairBytes(b, i - |a| / 2)
  {
    hide Join;
  }

  /** A proof is followed from the leaf up: an even node is hashed in front of its sibling, an odd one
      behind it. */
  lemma ClimbOne(h: HashFunction, x: Hash, sibling: Hash, rest: seq<Hash>, idx: nat)
    ensures Climb(h, x, [], idx) == x
    ensures Climb(h, x, [sibling] + rest, idx) ==
            Climb(h, h(if idx % 2 == 0 then x + sibling else sibling + x), rest, idx / 2)
  {
    assert ([sibling] + rest)[1..] == rest;
  }

  /* ---- completeness and soundness ---- */

  lemma OrderedIsPair(level: seq<Hash>, idx: nat)
    requires idx < |level|
    ensures Ordered(level[idx], Sibling(level, idx), idx) == PairBytes(level, idx / 2)
  {
  }

  /** The proof computed for a leaf leads to the root, and has one sibling a level. */
  lemma {:induction false} PathLeadsToRoot(h: HashFunction, leaves: seq<Hash>, idx: nat)
    requires idx < |leaves|
    ensures Climb(h, leaves[idx], Path(h, leaves, idx), idx) == Root(h, leaves)
    ensures |Path(h, leaves, idx)| == Depth(|leaves|)
    decreases |leaves|
  {
    if |leaves| > 1 {
      OrderedIsPair(leaves, idx);
      PathLeadsToRoot(h, NextLevel(h, leaves), idx / 2);
      assert Path(h, leaves, idx)[1..] == Path(h, NextLevel(h, leaves), idx / 2);
    }
  }

  /** Two different byte strings with the same hash. */
  predicate Collision(h: HashFunction, c: (seq<u8>, seq<u8>))
  {
    c.0 != c.1 && h(c.0) == h(c.1)
  }

  /** Follows a proof next to the true path up to where the two first meet. */
  function MeetingPoint(h: HashFunction, leaves: seq<Hash>, x: Hash, proof: seq<Hash>, idx: nat): (seq<u8>, seq<u8>)
    requires idx < |leaves| && |proof| == Depth(|leaves|)
    decreases |leaves|
  {
    if |leaves| == 1 then ([], [])
    else
      var claimed, actual := Ordered(x, proof[0], idx), PairBytes(leaves, idx / 2);
      if h(claimed) == h(actual) then (claimed, actual)
      else MeetingPoint(h, NextLevel(h, leaves), h(claimed), proof[1..], idx / 2)
  }

  /** An accepted leaf is the leaf at that index, or the two paths exhibit a collision. */
  lemma {:induction false} Sound(h: HashFunction, leaves: seq<Hash>, x: Hash, proof: seq<Hash>, idx: nat)
    requires idx < |leaves| && |proof| == Depth(|leaves|)
    requires Climb(h, x, proof, idx) == Root(h, leaves)
    ensures x == leaves[idx] || Collision(h, MeetingPoint(h, leaves, x, proof, idx))
    decreases |leaves|
  {
    if |leaves| > 1 {
      var claimed, actual := Ordered(x, proof[0], idx), PairBytes(leaves, idx / 2);
      if h(claimed) == h(actual) {
        if claimed == actual {
          OrderedIsPair(leaves, idx);
          OrderedInjective(x, proof[0], leaves[idx], Sibling(leaves, idx), idx);
        }
      } else {
        Sound(h, NextLevel(h, leaves), h(claimed), proof[1..], idx / 2);
      }
    }
  }

  lemma OrderedInjective(x: Hash, s: Hash, y: Hash, t: Hash, idx: nat)
    requires Ordered(x, s, idx) == Ordered(y, t, idx)
    ensures x == y && s == t
  {
    var p, q := Ordered(x, s, idx), Ordered(y, t, idx);
    if idx % 2 == 0 {
      assert x == p[..32] && s == p[32..] && y == q[..32] && t == q[32..];
    } else {
      assert s == p[..32] && x == p[32..] && t == q[..32] && y == q[32..];
    }
  }

  /** Following the path of leaf i of a next to the one of b meets in a collision. */
  predicate MeetsInCollision(h: HashFunction, a: seq<Hash>, b: seq<Hash>, i: nat)
    requires |a| == |b| && i < |a|
  {
    PathLeadsToRoot(h, a, i);
    Collision(h, MeetingPoint(h, b, a[i], Path(h, a, i), i))
  }

  /** When roots differ there is a leaf whose paths never meet. */
  lemma {:induction false} NeverMeet(h: HashFunction, a: seq<Hash>, b: seq<Hash>) returns (i: nat)
    requires |a| == |b| && Root(h, a) != Root(h, b)
    ensures i < |a| && a[i] != b[i]
    ensures |Path(h, a, i)| == Depth(|b|) && MeetingPoint(h, b, a[i], Path(h, a, i), i) == ([], [])
    decreases |a|
  {
    if |a| == 1 {
      i := 0;
    } else {
      LevelLength(h, a);
      LevelLength(h, b);
      var j := NeverMeet(h, NextLevel(h, a), NextLevel(h, b));
      i := DifferingChild(h, a, b, j);
      NeverMeetBelow(h, a, b, i);
    }
  }

  /** Two nodes of the next level that differ have children that differ. */
  lemma DifferingChild(h: HashFunction, a: seq<Hash>, b: seq<Hash>, j: nat) returns (i: nat)
    requires |a| == |b| && j < |NextLevel(h, a)| && NextLevel(h, a)[j] != NextLevel(h, b)[j]
    ensures i < |a| && i / 2 == j && a[i] != b[i] && h(PairBytes(a, j)) != h(PairBytes(b, j))
  {
    hide Join;
    i := if a[2 * j] != b[2 * j] then 2 * j else 2 * j + 1;
  }

  lemma NeverMeetBelow(h: HashFunction, a: seq<Hash>, b: seq<Hash>, i: nat)
    requires |a| == |b| > 1 && i < |a| && h(PairBytes(a, i / 2)) != h(PairBytes(b, i / 2))
    requires |Path(h, NextLevel(h, a), i / 2)| == Depth(|NextLevel(h, b)|)
    requires var up, j := NextLevel(h, a), i / 2;
             MeetingPoint(h, NextLevel(h, b), up[j], Path(h, up, j), j) == ([], [])
    ensures |Path(h, a, i)| == Depth(|b|) && MeetingPoint(h, b, a[i], Path(h, a, i), i) == ([], [])
  {
    hide Join;
    OrderedIsPair(a, i);
    hide PairBytes, Ordered;
    assert Path(h, a, i)[1..] == Path(h, NextLevel(h, a), i / 2);
  }

  /** Exactly when two lists of one length have one root: at every leaf where they differ, the two paths
      meet in a collision of the pair hash. */
  lemma RootBinds(h: HashFunction, a: seq<Hash>, b: seq<Hash>)
    requires |a| == |b|
    ensures Root(h, a) == Root(h, b) <==> forall i :: 0 <= i < |a| && a[i] != b[i] ==> MeetsInCollision(h, a, b, i)
  {
    hide Root, Path, MeetingPoint, Climb;
    if Root(h, a) == Root(h, b) {
      forall i | 0 <= i < |a| && a[i] != b[i]
        ensures MeetsInCollision(h, a, b, i)
      {
        PathLeadsToRoot(h, a, i);
        Sound(h, b, a[i], Path(h, a, i), i);
      }
    } else {
      var i := NeverMeet(h, a, b);
      assert !MeetsInCollision(h, a, b, i);
    }
  }

  /** The length has to be known: repeating the last leaf of an odd list keeps the root. */
  lemma OddLastRepeats(h: HashFunction, leaves: seq<Hash>)
    requires |leaves| % 2 == 1 && |leaves| > 1
    ensures Root(h, leaves + [leaves[|leaves| - 1]]) == Root(h, leaves)
  {
    OddLevel(h, leaves);
    hide NextLevel;
  }

  lemma OddLevel(h: HashFunction, leaves: seq<Hash>)
    requires |leaves| % 2 == 1
    ensures NextLevel(h, leaves + [leaves[|leaves| - 1]]) == NextLevel(h, leaves)
  {
    hide Join, PairBytes, FirstNodes;
    var longer := leaves + [leaves[|leaves| - 1]];
    var a, b := NextLevel(h, longer), NextLevel(h, leaves);
    forall i | 0 <= i < |b|
      ensures a[i] == b[i]
    {
      OddPair(leaves, i);
    }
  }

  lemma OddPair(leaves: seq<Hash>, i: nat)
    requires |leaves| % 2 == 1 && i < (|leaves| + 1) / 2
    ensures PairBytes(leaves + [leaves[|leaves| - 1]], i) == PairBytes(leaves, i)
  {
    hide Join;
  }

  lemma LevelLength(h: HashFunction, leaves: seq<Hash>)
    ensures |NextLevel(h, leaves)| == (|leaves| + 1) / 2
  {
  }

  /** The leaf that is hashed at position i of the full tree over n leaves. */
  function Source(n: nat, i: nat): (k: nat)
    requires n > 0 && i < Pow2(Depth(n))
    ensures k < n
    decreases n
  {
    if n == 1 then 0
    else
      var j := Source((n + 1) / 2, i / 2);
      if 2 * j + i % 2 < n then 2 * j + i % 2 else 2 * j
  }

  /** The leaves of the full tree: odd levels repeat their last node with everything below it. */
  function Expanded(leaves: seq<Hash>): (full: seq<Hash>)
    requires leaves != []
    ensures |full| == Pow2(Depth(|leaves|))
    ensures forall i :: 0 <= i < |full| ==> full[i] == leaves[Source(|leaves|, i)]
  {
    seq(Pow2(Depth(|leaves|)), i requires 0 <= i < Pow2(Depth(|leaves|)) => leaves[Source(|leaves|, i)])
  }

  lemma ExpandedLevel(h: HashFunction, leaves: seq<Hash>)
    requires |leaves| > 1
    ensures NextLevel(h, Expanded(leaves)) == Expanded(NextLevel(h, leaves))
  {
    hide Join, FirstNodes;
    var full, next := Expanded(leaves), NextLevel(h, leaves);
    assert Depth(|leaves|) == 1 + Depth(|next|);
    forall i | 0 <= i < |NextLevel(h, full)|
      ensures NextLevel(h, full)[i] == Expanded(next)[i]
    {
      ExpandedPair(leaves, i);
    }
  }

  lemma ExpandedPair(leaves: seq<Hash>, i: nat)
    requires |leaves| > 1 && i < Pow2(Depth((|leaves| + 1) / 2))
    ensures 2 * i + 1 < |Expanded(leaves)|
    ensures PairBytes(Expanded(leaves), i) == PairBytes(leaves, Source((|leaves| + 1) / 2, i))
  {
    SourcePair(|leaves|, i);
    hide Join, Source, Expanded;
    var full := Expanded(leaves);
    assert full[2 * i] == leaves[Source(|leaves|, 2 * i)];
    assert full[2 * i + 1] == leaves[Source(|leaves|, 2 * i + 1)];
  }

  lemma SourcePair(n: nat, i: nat)
    requires n > 1 && i < Pow2(Depth((n + 1) / 2))
    ensures 2 * i + 1 < Pow2(Depth(n))
    ensures var j := Source((n + 1) / 2, i);
            Source(n, 2 * i) == 2 * j && Source(n, 2 * i + 1) == if 2 * j + 1 < n then 2 * j + 1 else 2 * j
  {
    Deeper(n);
    hide Source, Pow2, Depth;
    SourceStep(n, i, 0);
    SourceStep(n, i, 1);
  }

  lemma Deeper(n: nat)
    requires n > 1
    ensures Pow2(Depth(n)) == 2 * Pow2(Depth((n + 1) / 2))
  {
  }

  lemma SourceStep(n: nat, i: nat, bit: nat)
    requires n > 1 && i < Pow2(Depth((n + 1) / 2)) && bit < 2 && 2 * i + bit < Pow2(Depth(n))
    ensures var j := Source((n + 1) / 2, i);
            Source(n, 2 * i + bit) == if 2 * j + bit < n then 2 * j + bit else 2 * j
  {
    hide Pow2, Depth;
    assert (2 * i + bit) / 2 == i && (2 * i + bit) % 2 == bit;
  }

  /** The full tree has the same root. */
  lemma {:induction false} ExpandedRoot(h: HashFunction, leaves: seq<Hash>)
    requires leaves != []
    ensures Root(h, Expanded(leaves)) == Root(h, leaves)
    decreases |leaves|
  {
    if |leaves| == 1 {
      assert Expanded(leaves) == leaves;
    } else {
      LevelLength(h, leaves);
      ExpandedLevel(h, leaves);
      ExpandedRoot(h, NextLevel(h, leaves));
      FullIsLong(leaves);
      hide Expanded, NextLevel;
    }
  }

  lemma FullIsLong(leaves: seq<Hash>)
    requires |leaves| > 1
    ensures |Expanded(leaves)| > 1
  {
    DepthIsLog(|leaves|);
  }

  /** The nodes d levels above the leaves. */
  function Level(h: HashFunction, leaves: seq<Hash>, d: nat): (level: seq<Hash>)
    requires leaves != [] && d <= Depth(|leaves|)
    ensures level != [] && Depth(|level|) == Depth(|leaves|) - d
    decreases d
  {
    if d == 0 then leaves else Level(h, NextLevel(h, leaves), d - 1)
  }

  /** The number of leaves has to be known: every level, taken as leaves, has the same root. */
  lemma {:induction false} LevelSharesRoot(h: HashFunction, leaves: seq<Hash>, d: nat)
    requires leaves != [] && d <= Depth(|leaves|)
    ensures Root(h, Level(h, leaves, d)) == Root(h, leaves)
    decreases d
  {
    if d > 0 {
      RootStep(h, leaves);
      hide Root, NextLevel;
      LevelSharesRoot(h, NextLevel(h, leaves), d - 1);
    }
  }

  lemma RootStep(h: HashFunction, leaves: seq<Hash>)
    requires leaves != [] && Depth(|leaves|) > 0
    ensures NextLevel(h, leaves) != [] && Depth(|NextLevel(h, leaves)|) == Depth(|leaves|) - 1
    ensures Root(h, NextLevel(h, leaves)) == Root(h, leaves)
  {
    LevelLength(h, leaves);
    hide NextLevel;
  }

  /** The leaves of the full tree over a, or over the level of a that is as deep as b. */
  function Matched(h: HashFunction, a: seq<Hash>, b: seq<Hash>): (full: seq<Hash>)
    requires a != [] && b != [] && Depth(|a|) >= Depth(|b|)
    ensures |full| == |Expanded(b)|
  {
    Expanded(Level(h, a, Depth(|a|) - Depth(|b|)))
  }

  /** Exactly when two lists of any lengths have one root: wherever the leaves of the full tree over the
      shallower list differ from those over the level of the other list that is as deep, the two paths
      meet in a collision. */
  lemma RootsAgreeExactly(h: HashFunction, a: seq<Hash>, b: seq<Hash>)
    requires a != [] && b != [] && Depth(|a|) >= Depth(|b|)
    ensures Root(h, a) == Root(h, b) <==>
            forall i :: 0 <= i < |Expanded(b)| && Matched(h, a, b)[i] != Expanded(b)[i] ==>
              MeetsInCollision(h, Matched(h, a, b), Expanded(b), i)
  {
    hide Source, NextLevel, Root, MeetsInCollision, Level;
    LevelSharesRoot(h, a, Depth(|a|) - Depth(|b|));
    ExpandedRoot(h, Level(h, a, Depth(|a|) - Depth(|b|)));
    ExpandedRoot(h, b);
    RootBinds(h, Matched(h, a, b), Expanded(b));
  }

  /* ---- the loops of the source ---- */

  /** The bytes of node i and of the one after it, or of node i twice. */
  method Combine(level: seq<Hash>, i: nat) returns (combined: seq<u8>)
    requires i < |level| && i % 2 == 0
    ensures combined == PairBytes(level, i / 2)
  {
    if i + 1 < |level| {
      combined := Join(level[i], level[i + 1]);
    } else {
      combined := Join(level[i], level[i]);
    }
  }

  /** One level up. */
  method PairUp(h: HashFunction, level: seq<Hash>) returns (nextLevel: seq<Hash>)
    ensures nextLevel == NextLevel(h, level)
  {
    hide PairBytes;
    nextLevel := [];
    var i := 0;
    while i < |level|
      invariant 0 <= i <= |level| + 1 && i % 2 == 0
      invariant nextLevel == NextLevel(h, level)[..i / 2]
    {
      var combined := Combine(level, i);
      nextLevel := nextLevel + [h(combined)];
      i := i + 2;
    }
  }

  method ComputeRoot(h: HashFunction, leaves: seq<Hash>) returns (root: Hash)
    ensures root == Root(h, leaves)
  {
    if leaves == [] {
      return NO_HASH;
    }
    if |leaves| == 1 {
      return leaves[0];
    }
    var level := leaves;
    while |level| > 1
      invariant |level| > 0 && Root(h, level) == Root(h, leaves)
      decreases |level|
    {
      level := PairUp(h, level);
    }
    return level[0];
  }

  /** One level up, noting the sibling of idx on the way. */
  method PairUpAndProve(h: HashFunction, level: seq<Hash>, idx: nat, proof: seq<Hash>)
    returns (nextLevel: seq<Hash>, proof': seq<Hash>)
    requires idx < |level|
    ensures nextLevel == NextLevel(h, level)
    ensures proof' == proof + [Sibling(level, idx)]
  {
    hide PairBytes;
    nextLevel := [];
    proof' := proof;
    var i := 0;
    while i < |level|
      invariant 0 <= i <= |level| + 1 && i % 2 == 0
      invariant nextLevel == NextLevel(h, level)[..i / 2]
      invariant proof' == if idx < i then proof + [Sibling(level, idx)] else proof
    {
      if i == idx || i + 1 == idx {
        if idx % 2 == 0 {
          if idx + 1 < |level| {
            proof' := proof' + [level[idx + 1]];
          } else {
            proof' := proof' + [level[idx]];
          }
        } else {
          proof' := proof' + [level[idx - 1]];
        }
      }
      var combined := Combine(level, i);
      nextLevel := nextLevel + [h(combined)];
      i := i + 2;
    }
  }

  method ComputeProof(h: HashFunction, leaves: seq<Hash>, index: nat) returns (proof: seq<Hash>)
    ensures index >= |leaves| ==> proof == []
    ensures index < |leaves| ==> proof == Path(h, leaves, index)
  {
    hide Sibling, Path, NextLevel;
    if leaves == [] || index >= |leaves| {
      return [];
    }
    proof := [];
    var level := leaves;
    var idx: nat := index;
    while |level| > 1
      invariant 0 <= idx < |level|
      invariant proof + Path(h, level, idx) == Path(h, leaves, index)
      decreases |level|
    {
      PathStep(h, level, idx);
      ghost var rest := Path(h, NextLevel(h, level), idx / 2);
      assert proof + ([Sibling(level, idx)] + rest) == (proof + [Sibling(level, idx)]) + rest;
      level, proof := PairUpAndProve(h, level, idx, proof);
      idx := idx / 2;
    }
    PathStep(h, level, idx);
  }

  lemma PathStep(h: HashFunction, level: seq<Hash>, idx: nat)
    requires idx < |level|
    ensures |NextLevel(h, level)| == (|level| + 1) / 2
    ensures Path(h, level, idx) ==
            if |level| == 1 then [] else [Sibling(level, idx)] + Path(h, NextLevel(h, level), idx / 2)
  {
  }

  method VerifyProof(h: HashFunction, root: Hash, leaf: Hash, proof: seq<Hash>, index: nat) returns (ok: bool)
    ensures ok <==> Climb(h, leaf, proof, index) == root
  {
    if proof == [] && root == leaf {
      return true;
    }
    var current := leaf;
    var idx: nat := index;
    for i := 0 to |proof|
      invariant Climb(h, current, proof[i..], idx) == Climb(h, leaf, proof, index)
    {
      var sibling := proof[i];
      var combined: seq<u8>;
      if idx % 2 == 0 {
        combined := Join(current, sibling);
      } else {
        combined := Join(sibling, current);
      }
      current := h(combined);
      idx := idx / 2;
    }
    return current == root;
  }
}
