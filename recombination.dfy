/**
 * The order-preserving crossover of DavidBeck_VRP.py (`crossover`).
 *
 * The two cut points that the source draws with
 * `sorted(random.sample(range(len(parent1)), 2))` are parameters; the draw
 * yields two distinct indices below `len(parent1)`, ascending.
 */
module Recombination {
  import opened Sequences
  import opened Loads

  /** A candidate that holds exactly the loads of the catalog, each once. */
  ghost predicate IsPermutationOf(c: Candidate, loads: seq<Load>) {
    multiset(c) == multiset(loads)
  }

  /**
   * `crossover(parent1, parent2)`: each child starts with its own parent's
   * segment `[idx1, idx2)` and continues with the other parent's loads that
   * are not in that segment, in the other parent's order.
   */
  function Crossover(parent1: Candidate, parent2: Candidate, idx1: nat, idx2: nat): (children: (Candidate, Candidate))
    requires idx1 < idx2 < |parent1|
    ensures |children.0| >= idx2 - idx1 && children.0[..idx2 - idx1] == parent1[idx1..idx2]
    ensures |parent2| == |parent1| ==>
      |children.1| >= idx2 - idx1 && children.1[..idx2 - idx1] == parent2[idx1..idx2]
  {
    var segment1 := parent1[idx1..idx2];
    var segment2 := Slice(parent2, idx1, idx2);
    (segment1 + Without(parent2, segment1), segment2 + Without(parent1, segment2))
  }

  /**
   * After its segment, each child lists the other parent's loads that are not
   * in the segment, in the other parent's order and nothing else.
   */
  lemma CrossoverFill(parent1: Candidate, parent2: Candidate, idx1: nat, idx2: nat)
    requires idx1 < idx2 < |parent1| == |parent2|
    ensures var (child1, child2) := Crossover(parent1, parent2, idx1, idx2);
      var tail1, tail2 := child1[idx2 - idx1..], child2[idx2 - idx1..];
      && IsSubsequence(tail1, parent2)
      && IsSubsequence(tail2, parent1)
      && (forall x :: x in tail1 <==> x in parent2 && x !in parent1[idx1..idx2])
      && (forall x :: x in tail2 <==> x in parent1 && x !in parent2[idx1..idx2])
  {
    var (child1, child2) := Crossover(parent1, parent2, idx1, idx2);
    var segment1, segment2 := parent1[idx1..idx2], parent2[idx1..idx2];
    assert child1[idx2 - idx1..] == Without(parent2, segment1);
    assert child2[idx2 - idx1..] == Without(parent1, segment2);
    WithoutIsSubsequence(parent2, segment1);
    WithoutIsSubsequence(parent1, segment2);
    WithoutMembers(parent2, segment1);
    WithoutMembers(parent1, segment2);
  }

  /** One child is a permutation of the catalog when both parents are. */
  lemma ChildPermutation(loads: seq<Load>, own: Candidate, other: Candidate, idx1: nat, idx2: nat)
    requires Distinct(loads)
    requires IsPermutationOf(own, loads) && IsPermutationOf(other, loads)
    requires idx1 < idx2 <= |own|
    ensures IsPermutationOf(own[idx1..idx2] + Without(other, own[idx1..idx2]), loads)
  {
    var segment := own[idx1..idx2];
    var child := segment + Without(other, segment);
    PermutationDistinct(own, loads);
    PermutationDistinct(other, loads);
    DistinctSlice(own, idx1, idx2);
    WithoutDistinct(other, segment);
    WithoutMembers(other, segment);
    DistinctConcat(segment, Without(other, segment));
    forall x ensures x in child <==> x in loads {
      assert x in own <==> x in multiset(loads);
      assert x in other <==> x in multiset(loads);
      assert x in segment ==> x in own;
    }
    SameElementsPermutation(child, loads);
  }

  /**
   * If both parents are permutations of a catalog of distinct loads, so is
   * each child: no load is duplicated or lost, and the length is kept.
   */
  lemma CrossoverPermutation(loads: seq<Load>, parent1: Candidate, parent2: Candidate, idx1: nat, idx2: nat)
    requires Distinct(loads)
    requires IsPermutationOf(parent1, loads) && IsPermutationOf(parent2, loads)
    requires idx1 < idx2 < |parent1|
    ensures var (child1, child2) := Crossover(parent1, parent2, idx1, idx2);
      && IsPermutationOf(child1, loads) && IsPermutationOf(child2, loads)
      && |child1| == |child2| == |loads|
  {
    assert |parent1| == |multiset(loads)| == |parent2|;
    ChildPermutation(loads, parent1, parent2, idx1, idx2);
    ChildPermutation(loads, parent2, parent1, idx1, idx2);
  }

  /**
   * The segment lands at the front of the child, not at positions
   * `[idx1, idx2)`: with idx1 > 0 the child's positions differ from the parent's.
   */
  lemma SegmentAtFront()
    ensures var p1 := [Load(1, Depot, Depot), Load(2, Depot, Depot), Load(3, Depot, Depot)];
      var p2 := [Load(3, Depot, Depot), Load(2, Depot, Depot), Load(1, Depot, Depot)];
      Crossover(p1, p2, 1, 2).0 == [Load(2, Depot, Depot), Load(3, Depot, Depot), Load(1, Depot, Depot)]
  {
    var p1 := [Load(1, Depot, Depot), Load(2, Depot, Depot), Load(3, Depot, Depot)];
    var p2 := [Load(3, Depot, Depot), Load(2, Depot, Depot), Load(1, Depot, Depot)];
    assert p1[1..2] == [Load(2, Depot, Depot)];
    var segment := [Load(2, Depot, Depot)];
    assert p2[1..][1..] == [Load(1, Depot, Depot)];
    assert Without([Load(1, Depot, Depot)], segment) == [Load(1, Depot, Depot)];
    assert Without(p2[1..], segment) == [Load(1, Depot, Depot)];
    assert Without(p2, segment) == [Load(3, Depot, Depot), Load(1, Depot, Depot)];
  }
}
