/** The constant tables of static.py: the 17-joint VideoPose3D skeleton, its joint
    names, the joint chains used for rotation bookkeeping, and the protocol constants. */
module Topology {
  import Framing

  /** A `[parent, child]` entry of a pair table. */
  type Pair = (nat, nat)

  const JointCount: nat := 17

  const Host: string := "localhost"
  const Port: nat := 6550
  const HeaderSize: nat := 10

  const CocoPairs: seq<Pair> := [
    (1, 2), (1, 5), (2, 3), (3, 4), (5, 6), (6, 7), (1, 8), (8, 9), (9, 10), (1, 11),
    (11, 12), (12, 13), (1, 0), (0, 14), (14, 16), (0, 15), (15, 17), (2, 16), (5, 17)]

  const VideoPosePairs: seq<Pair> := [
    (0, 4), (4, 5), (5, 6),
    (0, 1), (1, 2), (2, 3),
    (0, 7), (7, 8), (8, 9), (9, 10),
    (8, 11), (11, 12), (12, 13),
    (8, 14), (14, 15), (15, 16)]

  /** `VideoPoseNames.items()` in iteration order (small int keys iterate in key order). */
  const NameItems: seq<(nat, string)> := [
    (0, "Hip"), (1, "rThigh"), (2, "rShin"), (3, "rFoot"),
    (4, "lThigh"), (5, "lShin"), (6, "lFoot"),
    (7, "upperSpine"), (8, "lowerSpine"), (9, "Neck"), (10, "Head"),
    (11, "lShoulder"), (12, "lElbow"), (13, "lHand"),
    (14, "rShoulder"), (15, "rElbow"), (16, "rHand")]

  const VideoPoseChains: seq<seq<nat>> := [[0, 1, 2, 3], [0, 4, 5, 6], [7, 8, 9, 10], [11, 12, 13], [14, 15, 16]]

  const Skips: seq<nat> := [0, 7, 11, 14]

  /** `key_skips` of `maya_process` in aimocap.py: the joints that get no rotation. */
  const KeySkips: seq<nat> := [3, 6, 10, 13, 16]

  // ----------------------------------------------------------------- maps

  /** A dict built from `items` in order; a repeated key keeps its last value. */
  function ItemsMap<K(==), V(==)>(items: seq<(K, V)>): (m: map<K, V>)
    ensures m.Keys == set i | 0 <= i < |items| :: items[i].0
  {
    if items == [] then map[]
    else
      var m := ItemsMap(items[..|items| - 1]);
      var last := items[|items| - 1];
      assert forall i :: 0 <= i < |items| - 1 ==> items[..|items| - 1][i] == items[i];
      m[last.0 := last.1]
  }

  /** `{v: k for k, v in items}`. */
  function ItemsInverse<K(==), V(==)>(items: seq<(K, V)>): map<V, K> {
    ItemsMap(Swapped(items))
  }

  /** Each item with its key and value exchanged. */
  function Swapped<K, V>(items: seq<(K, V)>): (r: seq<(V, K)>)
    ensures |r| == |items| && forall i :: 0 <= i < |items| ==> r[i] == (items[i].1, items[i].0)
  {
    seq(|items|, i requires 0 <= i < |items| => (items[i].1, items[i].0))
  }

  const VideoPoseNames: map<nat, string> := ItemsMap(NameItems)
  const VideoPoseNamesRev: map<string, nat> := ItemsInverse(NameItems)

  predicate DistinctKeys<K(==), V(==)>(items: seq<(K, V)>) {
    forall i, j :: 0 <= i < j < |items| ==> items[i].0 != items[j].0
  }

  predicate DistinctValues<K(==), V(==)>(items: seq<(K, V)>) {
    forall i, j :: 0 <= i < j < |items| ==> items[i].1 != items[j].1
  }

  /** With distinct keys, the map sends each item's key to that item's value. */
  lemma {:induction false} ItemsMapLookup<K, V>(items: seq<(K, V)>, i: nat)
    requires DistinctKeys(items) && i < |items|
    ensures items[i].0 in ItemsMap(items) && ItemsMap(items)[items[i].0] == items[i].1
  {
    if i < |items| - 1 {
      ItemsMapLookup(items[..|items| - 1], i);
    }
  }

  /** With distinct keys and distinct values, the comprehension `{v: k ...}` is the exact
      inverse of the dict. */
  lemma ItemsInverseExact<K, V>(items: seq<(K, V)>)
    requires DistinctKeys(items) && DistinctValues(items)
    ensures ItemsInverse(items).Keys == ItemsMap(items).Values
    ensures forall k :: k in ItemsMap(items) ==> ItemsInverse(items)[ItemsMap(items)[k]] == k
    ensures forall v :: v in ItemsInverse(items) ==> ItemsMap(items)[ItemsInverse(items)[v]] == v
  {
    forall k | k in ItemsMap(items)
      ensures ItemsMap(items)[k] in ItemsInverse(items) && ItemsInverse(items)[ItemsMap(items)[k]] == k
    {
      InverseOfValue(items, k);
    }
    forall v | v in ItemsInverse(items)
      ensures v in ItemsMap(items).Values && ItemsInverse(items)[v] in ItemsMap(items) && ItemsMap(items)[ItemsInverse(items)[v]] == v
    {
      ValueOfInverse(items, v);
    }
  }

  lemma InverseOfValue<K, V>(items: seq<(K, V)>, k: K)
    requires DistinctKeys(items) && DistinctValues(items) && k in ItemsMap(items)
    ensures ItemsMap(items)[k] in ItemsInverse(items) && ItemsInverse(items)[ItemsMap(items)[k]] == k
  {
    var i :| 0 <= i < |items| && items[i].0 == k;
    ItemsMapLookup(items, i);
    assert DistinctKeys(Swapped(items));
    ItemsMapLookup(Swapped(items), i);
  }

  lemma ValueOfInverse<K, V>(items: seq<(K, V)>, v: V)
    requires DistinctKeys(items) && DistinctValues(items) && v in ItemsInverse(items)
    ensures v in ItemsMap(items).Values && ItemsInverse(items)[v] in ItemsMap(items) && ItemsMap(items)[ItemsInverse(items)[v]] == v
  {
    var swapped := Swapped(items);
    var i :| 0 <= i < |swapped| && swapped[i].0 == v;
    ItemsMapLookup(items, i);
    assert DistinctKeys(swapped);
    ItemsMapLookup(swapped, i);
  }

  // ---------------------------------------------------------------- trees

  /** The joint numbers 0..n-1. */
  function Range(n: nat): (r: set<nat>)
    ensures forall j: nat :: j in r <==> j < n
    ensures |r| == n
  {
    if n == 0 then {} else Range(n - 1) + {n - 1}
  }

  /** The children named by the entries of `ps`. */
  function Children(ps: seq<Pair>): (r: set<nat>)
    ensures forall c :: c in r <==> exists i :: 0 <= i < |ps| && ps[i].1 == c
  {
    if ps == [] then {}
    else
      var r := Children(ps[..|ps| - 1]) + {ps[|ps| - 1].1};
      assert forall i :: 0 <= i < |ps| - 1 ==> ps[..|ps| - 1][i] == ps[i];
      r
  }

  /** How many entries of `ps` have `c` as their child. */
  function ChildCount(ps: seq<Pair>, c: nat): nat {
    if ps == [] then 0 else (if ps[0].1 == c then 1 else 0) + ChildCount(ps[1..], c)
  }

  predicate DistinctChildren(ps: seq<Pair>) {
    forall i, j :: 0 <= i < j < |ps| ==> ps[i].1 != ps[j].1
  }

  /** Some entry of `ps` has `j` as its parent: the joint has an outgoing pair. */
  predicate HasChild(ps: seq<Pair>, j: nat) {
    exists i :: 0 <= i < |ps| && ps[i].0 == j
  }

  lemma {:induction false} ChildCountDistinct(ps: seq<Pair>, c: nat)
    requires DistinctChildren(ps)
    ensures ChildCount(ps, c) == if c in Children(ps) then 1 else 0
  {
    if ps != [] {
      ChildCountDistinct(ps[1..], c);
      if ps[0].1 == c {
        assert c !in Children(ps[1..]);
      } else if c in Children(ps) {
        var i :| 0 <= i < |ps| && ps[i].1 == c;
        assert ps[1..][i - 1].1 == c;
      }
    }
  }

  lemma {:induction false} ChildrenCardinality(ps: seq<Pair>)
    requires DistinctChildren(ps)
    ensures |Children(ps)| == |ps|
  {
    if ps != [] {
      var front := ps[..|ps| - 1];
      ChildrenCardinality(front);
      assert Children(ps) == Children(front) + {ps[|ps| - 1].1};
      assert ps[|ps| - 1].1 !in Children(front);
    }
  }

  /** `ps` is a tree over joints 0..n-1 rooted at 0, listed parents first: every child is a
      joint other than the root, no joint is the child of two entries, and every entry
      hangs from the root or from the child of an earlier entry. */
  predicate RootedTree(ps: seq<Pair>, n: nat) {
    && |ps| == n - 1
    && (forall i :: 0 <= i < |ps| ==> ps[i].0 < n && 0 < ps[i].1 < n)
    && DistinctChildren(ps)
    && (forall i :: 0 <= i < |ps| ==> ps[i].0 == 0 || exists j :: 0 <= j < i && ps[j].1 == ps[i].0)
  }

  /** In such a tree every joint but the root is the child of exactly one entry, and the
      root of none: n-1 distinct children drawn from 1..n-1 are all of them. */
  lemma RootedTreeChildren(ps: seq<Pair>, n: nat)
    requires RootedTree(ps, n)
    ensures ChildCount(ps, 0) == 0
    ensures forall c :: 0 < c < n ==> ChildCount(ps, c) == 1
  {
    ChildCountDistinct(ps, 0);
    TreeChildrenAll(ps, n);
    forall c | 0 < c < n
      ensures ChildCount(ps, c) == 1
    {
      ChildCountDistinct(ps, c);
    }
  }

  /** The children of such a tree are all the joints but the root. */
  lemma TreeChildrenAll(ps: seq<Pair>, n: nat)
    requires RootedTree(ps, n)
    ensures forall c :: c in Children(ps) <==> 0 < c < n
  {
    var joints := Range(n) - {0};
    assert Range(n) == joints + {0};
    assert |joints| == n - 1;
    ChildrenCardinality(ps);
    assert Children(ps) <= joints;
    SubsetOfSameSize(Children(ps), joints);
  }

  lemma SubsetOfSameSize(a: set<nat>, b: set<nat>)
    requires a <= b && |a| == |b|
    ensures a == b
  {
    assert b == a + (b - a);
    assert |b - a| == 0;
    assert forall x :: x in b ==> x in a;
  }

  // ------------------------------------------------------ the constant tables

  /** `VideoPosePairs` is a tree over the 17 joints rooted at the hip (0): each of 1..16
      is the child of exactly one pair and 0 of none. */
  lemma VideoPoseTree()
    ensures RootedTree(VideoPosePairs, JointCount)
    ensures ChildCount(VideoPosePairs, 0) == 0
    ensures forall c :: 0 < c < JointCount ==> ChildCount(VideoPosePairs, c) == 1
  {
    VideoPoseShape();
    VideoPoseParentsFirst();
    RootedTreeChildren(VideoPosePairs, JointCount);
  }

  lemma VideoPoseShape()
    ensures |VideoPosePairs| == JointCount - 1
    ensures forall i :: 0 <= i < |VideoPosePairs| ==> VideoPosePairs[i].0 < JointCount && 0 < VideoPosePairs[i].1 < JointCount
    ensures DistinctChildren(VideoPosePairs)
  {
    VideoPoseBounds();
    // for each child joint, the index of the pair naming it
    var naming: seq<nat> := [0, 3, 4, 5, 0, 1, 2, 6, 7, 8, 9, 10, 11, 12, 13, 14, 15];
    forall i | 0 <= i < |VideoPosePairs|
      ensures naming[VideoPosePairs[i].1] == i
    {
    }
  }

  lemma VideoPoseBounds()
    ensures |VideoPosePairs| == JointCount - 1
    ensures forall i :: 0 <= i < |VideoPosePairs| ==> VideoPosePairs[i].0 < JointCount && 0 < VideoPosePairs[i].1 < JointCount
  {
  }

  lemma VideoPoseParentsFirst()
    ensures forall i :: 0 <= i < |VideoPosePairs| ==>
      VideoPosePairs[i].0 == 0 || exists j :: 0 <= j < i && VideoPosePairs[j].1 == VideoPosePairs[i].0
  {
    // for each entry, the index of an earlier entry whose child is this entry's parent
    var earlier: seq<nat> := [0, 0, 1, 0, 3, 4, 0, 6, 7, 8, 7, 10, 11, 7, 13, 14];
    forall i | 0 <= i < |VideoPosePairs| && VideoPosePairs[i].0 != 0
      ensures exists j :: 0 <= j < i && VideoPosePairs[j].1 == VideoPosePairs[i].0
    {
      var j := earlier[i];
      assert 0 <= j < i && VideoPosePairs[j].1 == VideoPosePairs[i].0;
    }
  }

  /** The end joints (feet, head, hands) are exactly `key_skips`. */
  lemma VideoPoseLeaves()
    ensures forall j :: 0 <= j < JointCount ==> (!HasChild(VideoPosePairs, j) <==> j in KeySkips)
  {
    // for each joint with an outgoing pair, the index of one such pair
    var outgoing: seq<nat> := [0, 4, 5, 0, 1, 2, 0, 7, 8, 9, 0, 11, 12, 0, 14, 15, 0];
    forall j | 0 <= j < JointCount && j !in KeySkips
      ensures HasChild(VideoPosePairs, j)
    {
      assert VideoPosePairs[outgoing[j]].0 == j;
    }
  }

  /** The names dict has keys 0..16 and distinct values, so the reversed dict is its
      exact inverse. */
  lemma VideoPoseNamesInverse()
    ensures forall k: nat :: k in VideoPoseNames <==> k < JointCount
    ensures DistinctValues(NameItems)
    ensures VideoPoseNamesRev.Keys == VideoPoseNames.Values
    ensures forall k :: k in VideoPoseNames ==> VideoPoseNamesRev[VideoPoseNames[k]] == k
    ensures forall v :: v in VideoPoseNamesRev ==> VideoPoseNames[VideoPoseNamesRev[v]] == v
  {
    NameKeys();
    NameValues();
    ItemsInverseExact(NameItems);
  }

  lemma NameKeys()
    ensures DistinctKeys(NameItems)
    ensures forall k: nat :: k in VideoPoseNames <==> k < JointCount
  {
    assert |NameItems| == JointCount;
    assert forall i :: 0 <= i < |NameItems| ==> NameItems[i].0 == i;
    forall k: nat | k < JointCount
      ensures k in VideoPoseNames
    {
      assert NameItems[k].0 == k;
    }
    forall k | k in VideoPoseNames
      ensures k < JointCount
    {
      assert k in ItemsMap(NameItems).Keys;
      var i :| 0 <= i < |NameItems| && NameItems[i].0 == k;
    }
  }

  lemma NameValues()
    ensures DistinctValues(NameItems)
  {
    forall i | 0 <= i < |NameItems|
      ensures NameIndex(NameItems[i].1) == i
    {
    }
  }

  /** Tells the joint names apart by their first letter, length and second letter, which
      is enough to recover each name's position in `NameItems`. */
  function NameIndex(s: string): int {
    if |s| < 2 then -1
    else
      var key := (s[0], |s|, s[1]);
      if key == ('H', 3, 'i') then 0
      else if key == ('r', 6, 'T') then 1
      else if key == ('r', 5, 'S') then 2
      else if key == ('r', 5, 'F') then 3
      else if key == ('l', 6, 'T') then 4
      else if key == ('l', 5, 'S') then 5
      else if key == ('l', 5, 'F') then 6
      else if key == ('u', 10, 'p') then 7
      else if key == ('l', 10, 'o') then 8
      else if key == ('N', 4, 'e') then 9
      else if key == ('H', 4, 'e') then 10
      else if key == ('l', 9, 'S') then 11
      else if key == ('l', 6, 'E') then 12
      else if key == ('l', 5, 'H') then 13
      else if key == ('r', 9, 'S') then 14
      else if key == ('r', 6, 'E') then 15
      else if key == ('r', 5, 'H') then 16
      else -1
  }

  /** Some chain of `chains` names joint `j`. */
  predicate OnChain(chains: seq<seq<nat>>, j: nat) {
    exists c :: 0 <= c < |chains| && j in chains[c]
  }

  /** Consecutive joints of every chain are joined by a pair of the tree, and together the
      chains name every joint. */
  lemma ChainsFollowTree()
    ensures forall c, k :: 0 <= c < |VideoPoseChains| && 0 <= k < |VideoPoseChains[c]| - 1 ==>
      (VideoPoseChains[c][k], VideoPoseChains[c][k + 1]) in VideoPosePairs
    ensures forall j :: 0 <= j < JointCount ==> OnChain(VideoPoseChains, j)
  {
    // for each joint, a chain naming it
    var chain: seq<nat> := [0, 0, 0, 0, 1, 1, 1, 2, 2, 2, 2, 3, 3, 3, 4, 4, 4];
    forall j | 0 <= j < JointCount
      ensures OnChain(VideoPoseChains, j)
    {
      assert j in VideoPoseChains[chain[j]];
    }
  }

  /** `Skips` lists exactly the heads of the chains. */
  lemma SkipsAreChainHeads()
    ensures forall j :: j in Skips <==> exists c :: 0 <= c < |VideoPoseChains| && VideoPoseChains[c][0] == j
  {
    var chain: seq<nat> := [1, 2, 3, 4];
    forall j | j in Skips
      ensures exists c :: 0 <= c < |VideoPoseChains| && VideoPoseChains[c][0] == j
    {
      var k :| 0 <= k < |Skips| && Skips[k] == j;
      assert VideoPoseChains[chain[k]][0] == j;
    }
  }

  /** static.py repeats the protocol constants of pyhelper.py; every `CocoPairs` index is
      one of the 18 COCO keypoints. */
  lemma StaticConstants()
    ensures Host == Framing.Host && Port == Framing.Port && HeaderSize == Framing.HeaderSize
    ensures forall i :: 0 <= i < |CocoPairs| ==> CocoPairs[i].0 <= 17 && CocoPairs[i].1 <= 17
  {
  }
}
