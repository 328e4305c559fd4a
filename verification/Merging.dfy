/**
 `PairwiseCostMergeUtility` of core/math/PairwiseCostMergeUtility.h: agglomerative merging that always
 merges the cheapest pair.  `merge_pair` is modelled as allocating a new object whose contents are
 `combine` of the two contents; `pair_cost` depends on the contents.
 */
module Merging {
  import opened Assignment

  class Item<V> {
    const value: V

    constructor (value: V)
      ensures this.value == value
    {
      this.value := value;
    }
  }

  datatype Pair<V> = Pair(left: Item<V>, right: Item<V>, cost: real)

  /** How an object came about: an input, or two objects merged. */
  datatype Tree<V> = Leaf(item: Item<V>) | Node(left: Tree<V>, right: Tree<V>)

  ghost function Leaves<V>(t: Tree<V>): set<Item<V>> {
    match t
    case Leaf(item) => {item}
    case Node(l, r) => Leaves(l) + Leaves(r)
  }

  /** Each input occurs at most once in the tree. */
  ghost predicate Proper<V>(t: Tree<V>) {
    match t
    case Leaf(_) => true
    case Node(l, r) => Proper(l) && Proper(r) && Leaves(l) !! Leaves(r)
  }

  /** The contents that merging along the tree produces. */
  ghost function ValueOf<V>(t: Tree<V>, combine: (V, V) -> V): V {
    match t
    case Leaf(item) => item.value
    case Node(l, r) => combine(ValueOf(l, combine), ValueOf(r, combine))
  }

  ghost function Elements<T>(s: seq<T>): set<T> {
    set x | x in s
  }

  ghost predicate Distinct<T>(s: seq<T>) {
    forall i, k | 0 <= i < k < |s| :: s[i] != s[k]
  }

  // ----- the pair list

  ghost predicate Connects<V>(p: Pair<V>, a: Item<V>, b: Item<V>) {
    (p.left == a && p.right == b) || (p.left == b && p.right == a)
  }

  ghost predicate Touches<V>(p: Pair<V>, a: Item<V>) {
    p.left == a || p.right == a
  }

  /** No two entries for the same unordered pair. */
  ghost predicate NoTwins<V>(pairs: seq<Pair<V>>) {
    forall k, l | 0 <= k < l < |pairs| :: !Connects(pairs[k], pairs[l].left, pairs[l].right)
  }

  ghost predicate WellFormed<V>(pairs: seq<Pair<V>>, live: set<Item<V>>, pairCost: (V, V) -> real) {
    forall p | p in pairs ::
        p.left in live && p.right in live && p.left != p.right && p.cost == pairCost(p.left.value, p.right.value)
  }

  ghost predicate HasPair<V>(pairs: seq<Pair<V>>, a: Item<V>, b: Item<V>) {
    exists p | p in pairs :: Connects(p, a, b)
  }

  ghost predicate Complete<V>(pairs: seq<Pair<V>>, live: set<Item<V>>) {
    forall a, b | a in live && b in live && a != b :: HasPair(pairs, a, b)
  }

  /** Exactly one entry, with its cost, for every unordered pair of live objects. */
  ghost predicate PairsOf<V>(pairs: seq<Pair<V>>, live: set<Item<V>>, pairCost: (V, V) -> real) {
    WellFormed(pairs, live, pairCost) && NoTwins(pairs) && Complete(pairs, live)
  }

  // ----- sorting by decreasing cost

  ghost predicate Descending<V>(pairs: seq<Pair<V>>) {
    forall k, l | 0 <= k < l < |pairs| :: pairs[k].cost >= pairs[l].cost
  }

  /** `perm` says where each entry of `sorted` came from. */
  ghost predicate Permuted<V>(pairs: seq<Pair<V>>, sorted: seq<Pair<V>>, perm: seq<int>) {
    && |sorted| == |pairs| && IsAssignment(perm, |pairs|, |pairs|)
    && forall k | 0 <= k < |pairs| :: sorted[k] == pairs[perm[k]]
  }

  method Insert<V>(sorted: seq<Pair<V>>, p: Pair<V>) returns (k: nat)
    requires Descending(sorted)
    ensures k <= |sorted| && Descending(sorted[..k] + [p] + sorted[k..])
  {
    k := 0;
    while k < |sorted| && sorted[k].cost > p.cost
      invariant k <= |sorted| && forall l | 0 <= l < k :: sorted[l].cost > p.cost
    {
      k := k + 1;
    }
  }

  lemma PermutedInsert<V>(pairs: seq<Pair<V>>, sorted: seq<Pair<V>>, perm: seq<int>, p: Pair<V>, k: nat)
    requires Permuted(pairs, sorted, perm) && k <= |sorted|
    ensures Permuted(pairs + [p], sorted[..k] + [p] + sorted[k..], perm[..k] + [|pairs|] + perm[k..])
  {
  }

  /** `std::sort` with the comparator of `merge_items`. */
  method Sort<V>(pairs: seq<Pair<V>>) returns (sorted: seq<Pair<V>>, ghost perm: seq<int>)
    ensures Descending(sorted) && Permuted(pairs, sorted, perm)
  {
    sorted, perm := [], [];
    for i := 0 to |pairs|
      invariant Descending(sorted) && Permuted(pairs[..i], sorted, perm)
    {
      var k := Insert(sorted, pairs[i]);
      PermutedInsert(pairs[..i], sorted, perm, pairs[i], k);
      assert pairs[..i] + [pairs[i]] == pairs[..i + 1];
      sorted, perm := sorted[..k] + [pairs[i]] + sorted[k..], perm[..k] + [i] + perm[k..];
    }
    assert pairs[..|pairs|] == pairs;
  }

  lemma SortKeepsPairs<V>(pairs: seq<Pair<V>>, sorted: seq<Pair<V>>, perm: seq<int>, live: set<Item<V>>,
                          pairCost: (V, V) -> real)
    requires PairsOf(pairs, live, pairCost) && Permuted(pairs, sorted, perm)
    ensures PairsOf(sorted, live, pairCost)
  {
    CoversAll(perm, |pairs|);
    forall k, l | 0 <= k < l < |sorted|
      ensures !Connects(sorted[k], sorted[l].left, sorted[l].right)
    {
      assert perm[k] != perm[l];
      assert !Connects(pairs[perm[k]], pairs[perm[l]].left, pairs[perm[l]].right);
    }
    forall a, b | a in live && b in live && a != b
      ensures HasPair(sorted, a, b)
    {
      assert HasPair(pairs, a, b);
      var i :| 0 <= i < |pairs| && Connects(pairs[i], a, b);
      assert i in perm;
      var k :| 0 <= k < |perm| && perm[k] == i;
      assert sorted[k] in sorted && Connects(sorted[k], a, b);
    }
  }

  // ----- one merge

  ghost predicate Keeps<V>(p: Pair<V>, l: Item<V>, r: Item<V>) {
    !Touches(p, l) && !Touches(p, r)
  }

  /** The entries that mention neither of the merged objects. */
  method DropPairs<V>(pairs: seq<Pair<V>>, l: Item<V>, r: Item<V>) returns (pcopy: seq<Pair<V>>)
    requires NoTwins(pairs)
    ensures forall p :: p in pcopy <==> p in pairs && Keeps(p, l, r)
    ensures NoTwins(pcopy)
  {
    pcopy := [];
    for i := 0 to |pairs|
      invariant forall p :: p in pcopy <==> p in pairs[..i] && Keeps(p, l, r)
      invariant NoTwins(pcopy)
    {
      var p := pairs[i];
      assert pairs[..i + 1] == pairs[..i] + [p];
      if p.left != l && p.right != l && p.left != r && p.right != r {
        forall k | 0 <= k < |pcopy|
          ensures !Connects(pcopy[k], p.left, p.right)
        {
          assert pcopy[k] in pairs[..i];
        }
        pcopy := pcopy + [p];
      }
    }
    assert pairs[..|pairs|] == pairs;
  }

  /** Adds an entry for `merged` with every live object, in whatever order the set is traversed. */
  method AddPairs<V>(pairs: seq<Pair<V>>, live: set<Item<V>>, merged: Item<V>,
                     pairCost: (V, V) -> real) returns (more: seq<Pair<V>>)
    requires NoTwins(pairs) && forall p | p in pairs :: !Touches(p, merged)
    requires merged !in live
    ensures forall p :: p in more <==>
        p in pairs || (p.left in live && p == Pair(p.left, merged, pairCost(p.left.value, merged.value)))
    ensures NoTwins(more)
  {
    more := pairs;
    var rest := live;
    while rest != {}
      invariant rest <= live && NoTwins(more)
      invariant forall p :: p in more <==>
          p in pairs || (p.left in live - rest && p == Pair(p.left, merged, pairCost(p.left.value, merged.value)))
    {
      var o :| o in rest;
      var p := Pair(o, merged, pairCost(o.value, merged.value));
      forall k | 0 <= k < |more|
        ensures !Connects(more[k], p.left, p.right)
      {
        assert more[k] in more;
      }
      more, rest := more + [p], rest - {o};
    }
  }

  /** After a merge the list again has exactly one entry per pair of live objects. */
  lemma MergedPairs<V>(pairs: seq<Pair<V>>, kept: seq<Pair<V>>, more: seq<Pair<V>>, live: set<Item<V>>, l: Item<V>,
                       r: Item<V>, merged: Item<V>, pairCost: (V, V) -> real)
    requires PairsOf(pairs, live, pairCost) && l in live && r in live && merged !in live && NoTwins(more)
    requires forall p :: p in kept <==> p in pairs && Keeps(p, l, r)
    requires forall p :: p in more <==>
        p in kept || (p.left in live - {l, r} && p == Pair(p.left, merged, pairCost(p.left.value, merged.value)))
    ensures PairsOf(more, live - {l, r} + {merged}, pairCost)
  {
    var live' := live - {l, r} + {merged};
    forall a, b | a in live' && b in live' && a != b
      ensures HasPair(more, a, b)
    {
      if a == merged || b == merged {
        var o := if a == merged then b else a;
        var p := Pair(o, merged, pairCost(o.value, merged.value));
        assert p in more && Connects(p, a, b);
      } else {
        assert HasPair(pairs, a, b);
        var p :| p in pairs && Connects(p, a, b);
        assert p in more;
      }
    }
  }

  /** The cleanup loop: drops entries at the end until one with two live objects is last. */
  method DropStale<V>(pairs: seq<Pair<V>>, live: set<Item<V>>) returns (kept: seq<Pair<V>>)
    requires exists p | p in pairs :: p.left in live && p.right in live
    ensures kept <= pairs && kept != [] && kept[|kept| - 1].left in live && kept[|kept| - 1].right in live
    ensures forall k | |kept| <= k < |pairs| :: pairs[k].left !in live || pairs[k].right !in live
  {
    kept := pairs;
    ghost var p :| p in pairs && p.left in live && p.right in live;
    while kept[|kept| - 1].left !in live || kept[|kept| - 1].right !in live
      invariant kept <= pairs && p in kept
      invariant forall k | |kept| <= k < |pairs| :: pairs[k].left !in live || pairs[k].right !in live
      decreases |kept|
    {
      assert kept == kept[..|kept| - 1] + [kept[|kept| - 1]];
      kept := kept[..|kept| - 1];
    }
  }

  // ----- the merge forest

  /** Proper trees over the inputs, with the contents of the live objects. */
  ghost predicate Grounded<V>(live: set<Item<V>>, trees: map<Item<V>, Tree<V>>, inputs: set<Item<V>>,
                              combine: (V, V) -> V) {
    && trees.Keys == live
    && forall x | x in live :: Proper(trees[x]) && ValueOf(trees[x], combine) == x.value && Leaves(trees[x]) <= inputs
  }

  /** No input occurs in two trees. */
  ghost predicate Disjoint<V>(live: set<Item<V>>, trees: map<Item<V>, Tree<V>>)
    requires trees.Keys == live
  {
    forall x, y | x in live && y in live && x != y :: Leaves(trees[x]) !! Leaves(trees[y])
  }

  ghost predicate InTree<V>(i: Item<V>, x: Item<V>, trees: map<Item<V>, Tree<V>>) {
    x in trees && i in Leaves(trees[x])
  }

  /** Every input occurs in some tree. */
  ghost predicate Covering<V>(live: set<Item<V>>, trees: map<Item<V>, Tree<V>>, inputs: set<Item<V>>) {
    forall i | i in inputs :: exists x | x in live :: InTree(i, x, trees)
  }

  /** The trees of the live objects partition the inputs. */
  ghost predicate Forest<V>(live: set<Item<V>>, trees: map<Item<V>, Tree<V>>, inputs: set<Item<V>>,
                            combine: (V, V) -> V) {
    Grounded(live, trees, inputs, combine) && Disjoint(live, trees) && Covering(live, trees, inputs)
  }

  ghost function Grown<V>(trees: map<Item<V>, Tree<V>>, l: Item<V>, r: Item<V>, merged: Item<V>): map<Item<V>, Tree<V>>
    requires l in trees && r in trees
  {
    (trees - {l, r})[merged := Node(trees[l], trees[r])]
  }

  lemma {:induction false} ForestKept<V>(live: set<Item<V>>, trees: map<Item<V>, Tree<V>>, inputs: set<Item<V>>,
                                         combine: (V, V) -> V, l: Item<V>, r: Item<V>, merged: Item<V>)
    requires Forest(live, trees, inputs, combine) && l in live && r in live && l != r && merged !in live
    requires merged.value == combine(l.value, r.value)
    ensures l in trees && r in trees
    ensures Forest(live - {l, r} + {merged}, Grown(trees, l, r, merged), inputs, combine)
  {
    var live', trees' := live - {l, r} + {merged}, Grown(trees, l, r, merged);
    assert Leaves(trees'[merged]) == Leaves(trees[l]) + Leaves(trees[r]);
    assert Grounded(live', trees', inputs, combine);
    forall i | i in inputs
      ensures exists x | x in live' :: InTree(i, x, trees')
    {
      var x: Item<V> :| x in live && InTree(i, x, trees);
      var x' := if x == l || x == r then merged else x;
      assert x' in live' && InTree(i, x', trees');
    }
  }

  ghost function Planted<V>(objects: seq<Item<V>>): (m: map<Item<V>, Tree<V>>)
    ensures m.Keys == Elements(objects) && forall x | x in objects :: m[x] == Leaf(x)
  {
    map x | x in objects :: Leaf(x)
  }

  lemma PlantedTree<V>(objects: seq<Item<V>>, x: Item<V>, combine: (V, V) -> V)
    requires x in objects
    ensures x in Planted(objects) && Leaves(Planted(objects)[x]) == {x} && Proper(Planted(objects)[x])
    ensures ValueOf(Planted(objects)[x], combine) == x.value
  {
    assert Planted(objects)[x] == Leaf(x);
  }

  lemma ForestPlanted<V>(objects: seq<Item<V>>, combine: (V, V) -> V)
    ensures Forest(Elements(objects), Planted(objects), Elements(objects), combine)
  {
    hide Leaves, Proper, ValueOf;
    var live, trees := Elements(objects), Planted(objects);
    forall x | x in live
      ensures x in trees && Leaves(trees[x]) == {x} && Proper(trees[x]) && ValueOf(trees[x], combine) == x.value
      ensures InTree(x, x, trees)
    {
      PlantedTree(objects, x, combine);
    }
  }

  // ----- the initial pair list

  ghost function PairAt<V>(objects: seq<Item<V>>, i: nat, j: nat, pairCost: (V, V) -> real): Pair<V>
    requires i < |objects| && j < |objects|
  {
    Pair(objects[i], objects[j], pairCost(objects[i].value, objects[j].value))
  }

  /** Index pair (k, l) comes before (i, j) in the order of the two nested loops. */
  ghost predicate Before(k: int, l: int, i: int, j: int) {
    k < i || (k == i && l < j)
  }

  /** The entries made before the loops reach (i, j). */
  ghost predicate MadeUpTo<V>(objects: seq<Item<V>>, pairs: seq<Pair<V>>, i: int, j: int, pairCost: (V, V) -> real) {
    && (forall p | p in pairs :: exists k, l | 0 <= k < l < |objects| && Before(k, l, i, j) ::
        p == PairAt(objects, k, l, pairCost))
    && (forall k, l | 0 <= k < l < |objects| && Before(k, l, i, j) :: PairAt(objects, k, l, pairCost) in pairs)
  }

  lemma NextIsNew<V>(objects: seq<Item<V>>, pairs: seq<Pair<V>>, i: nat, j: nat, pairCost: (V, V) -> real)
    requires Distinct(objects) && MadeUpTo(objects, pairs, i, j, pairCost) && i < j < |objects|
    ensures forall q | q in pairs :: !Connects(q, objects[i], objects[j])
    ensures MadeUpTo(objects, pairs + [PairAt(objects, i, j, pairCost)], i, j + 1, pairCost)
  {
    forall q | q in pairs
      ensures !Connects(q, objects[i], objects[j])
    {
      var k, l :| 0 <= k < l < |objects| && Before(k, l, i, j) && q == PairAt(objects, k, l, pairCost);
    }
    var more := pairs + [PairAt(objects, i, j, pairCost)];
    forall p | p in more
      ensures exists k, l | 0 <= k < l < |objects| && Before(k, l, i, j + 1) :: p == PairAt(objects, k, l, pairCost)
    {
      if p in pairs {
        var k, l :| 0 <= k < l < |objects| && Before(k, l, i, j) && p == PairAt(objects, k, l, pairCost);
        assert Before(k, l, i, j + 1);
      } else {
        assert Before(i, j, i, j + 1);
      }
    }
  }

  lemma RowMade<V>(objects: seq<Item<V>>, pairs: seq<Pair<V>>, i: nat, pairCost: (V, V) -> real)
    requires MadeUpTo(objects, pairs, i, |objects|, pairCost)
    ensures MadeUpTo(objects, pairs, i + 1, i + 2, pairCost)
  {
    forall p | p in pairs
      ensures exists k, l | 0 <= k < l < |objects| && Before(k, l, i + 1, i + 2) :: p == PairAt(objects, k, l, pairCost)
    {
      var k, l :| 0 <= k < l < |objects| && Before(k, l, i, |objects|) && p == PairAt(objects, k, l, pairCost);
      assert Before(k, l, i + 1, i + 2);
    }
    forall k, l | 0 <= k < l < |objects| && Before(k, l, i + 1, i + 2)
      ensures PairAt(objects, k, l, pairCost) in pairs
    {
      assert Before(k, l, i, |objects|);
    }
  }

  lemma AllMade<V>(objects: seq<Item<V>>, pairs: seq<Pair<V>>, pairCost: (V, V) -> real)
    requires Distinct(objects) && NoTwins(pairs) && MadeUpTo(objects, pairs, |objects|, |objects| + 1, pairCost)
    ensures PairsOf(pairs, Elements(objects), pairCost)
  {
    var live := Elements(objects);
    forall p | p in pairs
      ensures p.left in live && p.right in live && p.left != p.right && p.cost == pairCost(p.left.value, p.right.value)
    {
      var k, l :| 0 <= k < l < |objects| && Before(k, l, |objects|, |objects| + 1)
          && p == PairAt(objects, k, l, pairCost);
    }
    forall a, b | a in live && b in live && a != b
      ensures HasPair(pairs, a, b)
    {
      var i :| 0 <= i < |objects| && objects[i] == a;
      var j :| 0 <= j < |objects| && objects[j] == b;
      var k, l := if i < j then i else j, if i < j then j else i;
      assert Before(k, l, |objects|, |objects| + 1);
      var p := PairAt(objects, k, l, pairCost);
      assert p in pairs && Connects(p, a, b);
    }
  }

  /** `initialize_pairs` */
  method InitialPairs<V>(objects: seq<Item<V>>, pairCost: (V, V) -> real) returns (pairs: seq<Pair<V>>)
    requires Distinct(objects)
    ensures PairsOf(pairs, Elements(objects), pairCost)
  {
    pairs := [];
    for i := 0 to |objects|
      invariant NoTwins(pairs) && MadeUpTo(objects, pairs, i, i + 1, pairCost)
    {
      for j := i + 1 to |objects|
        invariant NoTwins(pairs) && MadeUpTo(objects, pairs, i, j, pairCost)
      {
        NextIsNew(objects, pairs, i, j, pairCost);
        assert forall k | 0 <= k < |pairs| :: pairs[k] in pairs;
        pairs := pairs + [Pair(objects[i], objects[j], pairCost(objects[i].value, objects[j].value))];
      }
      RowMade(objects, pairs, i, pairCost);
    }
    AllMade(objects, pairs, pairCost);
  }

  // ----- the class

  /** One merge as it happened: the live objects before it, the pair that was merged and the new object. */
  datatype Merge<V> = Merge(live: set<Item<V>>, left: Item<V>, right: Item<V>, merged: Item<V>)

  /** The objects, their merge trees and the deleted objects after the merges of a log. */
  datatype Stage<V> = Stage(live: set<Item<V>>, trees: map<Item<V>, Tree<V>>, deleted: set<Item<V>>)

  /** What one merge does: two objects make way for a new one, whose tree joins theirs. */
  ghost function After<V>(s: Stage<V>, step: Merge<V>): Stage<V> {
    Stage(s.live - {step.left, step.right} + {step.merged},
          if step.left in s.trees && step.right in s.trees
          then Grown(s.trees, step.left, step.right, step.merged)
          else s.trees,
          s.deleted + {step.left, step.right})
  }

  ghost function Replay<V>(objects: seq<Item<V>>, log: seq<Merge<V>>): Stage<V> {
    if |log| == 0 then Stage(Elements(objects), Planted(objects), {})
    else After(Replay(objects, log[..|log| - 1]), log[|log| - 1])
  }

  /** Each merge of the log starts from the live objects the merges before it left, and brings a new object. */
  ghost predicate Coherent<V>(objects: seq<Item<V>>, log: seq<Merge<V>>) {
    forall k | 0 <= k < |log| :: Starts(log[k], Replay(objects, log[..k]))
  }

  ghost predicate Starts<V>(step: Merge<V>, s: Stage<V>) {
    && step.live == s.live && step.left in s.trees && step.right in s.trees
    && step.merged !in s.live && step.merged !in s.deleted
  }

  lemma CoherentExtended<V>(objects: seq<Item<V>>, log: seq<Merge<V>>, step: Merge<V>)
    requires Coherent(objects, log) && Starts(step, Replay(objects, log))
    ensures Coherent(objects, log + [step]) && Replay(objects, log + [step]) == After(Replay(objects, log), step)
  {
    hide Replay, Starts;
    var longer := log + [step];
    assert longer[..|log|] == log;
    forall k | 0 <= k < |longer|
      ensures Starts(longer[k], Replay(objects, longer[..k]))
    {
      if k < |log| {
        assert longer[..k] == log[..k];
      }
    }
    assert Replay(objects, longer) == After(Replay(objects, log), step) by {
      assert longer[|longer| - 1] == step;
      LastReplayed(objects, longer);
    }
  }

  lemma LastReplayed<V>(objects: seq<Item<V>>, log: seq<Merge<V>>)
    requires |log| > 0
    ensures Replay(objects, log) == After(Replay(objects, log[..|log| - 1]), log[|log| - 1])
  {
  }

  /** The merged pair was live, within the threshold, and no costlier than any other live pair. */
  ghost predicate Greedy<V>(step: Merge<V>, threshold: real, pairCost: (V, V) -> real) {
    var cost := pairCost(step.left.value, step.right.value);
    && step.left in step.live && step.right in step.live && step.left != step.right && cost <= threshold
    && Cheapest(cost, step.live, pairCost)
  }

  /** No two live objects can still be merged within the threshold. */
  ghost predicate TooCostly<V>(live: set<Item<V>>, threshold: real, pairCost: (V, V) -> real) {
    forall a, b | a in live && b in live && a != b ::
        pairCost(a.value, b.value) > threshold || pairCost(b.value, a.value) > threshold
  }

  lemma LastIsCheapest<V>(pairs: seq<Pair<V>>, live: set<Item<V>>, pairCost: (V, V) -> real, a: Item<V>, b: Item<V>)
    requires PairsOf(pairs, live, pairCost) && Descending(pairs) && a in live && b in live && a != b
    ensures pairs != []
    ensures var cost := pairs[|pairs| - 1].cost;
            cost <= pairCost(a.value, b.value) || cost <= pairCost(b.value, a.value)
  {
    assert HasPair(pairs, a, b);
    var i :| 0 <= i < |pairs| && Connects(pairs[i], a, b);
    assert pairs[i] in pairs;
  }

  /** No live pair is cheaper than `cost`. */
  ghost predicate Cheapest<V>(cost: real, live: set<Item<V>>, pairCost: (V, V) -> real) {
    forall a, b | a in live && b in live && a != b ::
        cost <= pairCost(a.value, b.value) || cost <= pairCost(b.value, a.value)
  }

  /** Of a sorted list for at least two live objects, the last entry is a cheapest live pair. */
  lemma LastIsBest<V>(pairs: seq<Pair<V>>, live: set<Item<V>>, pairCost: (V, V) -> real)
    requires PairsOf(pairs, live, pairCost) && Descending(pairs) && |live| > 1
    ensures pairs != []
    ensures var best := pairs[|pairs| - 1];
            best.left in live && best.right in live && best.left != best.right
            && best.cost == pairCost(best.left.value, best.right.value) && Cheapest(best.cost, live, pairCost)
  {
    var x, y := TwoLive(live);
    LastIsCheapest(pairs, live, pairCost, x, y);
    assert pairs[|pairs| - 1] in pairs;
    forall a, b | a in live && b in live && a != b
      ensures pairs[|pairs| - 1].cost <= pairCost(a.value, b.value)
          || pairs[|pairs| - 1].cost <= pairCost(b.value, a.value)
    {
      LastIsCheapest(pairs, live, pairCost, a, b);
    }
  }

  lemma TwoLive<V>(live: set<Item<V>>) returns (a: Item<V>, b: Item<V>)
    requires |live| > 1
    ensures a in live && b in live && a != b
  {
    a :| a in live;
    var rest := live - {a};
    assert |rest| == |live| - 1;
    b :| b in rest;
  }

  lemma CheapestTooCostly<V>(cost: real, live: set<Item<V>>, threshold: real, pairCost: (V, V) -> real)
    requires Cheapest(cost, live, pairCost) && cost > threshold
    ensures TooCostly(live, threshold, pairCost)
  {
  }

  lemma StepIsGreedy<V>(step: Merge<V>, threshold: real, pairCost: (V, V) -> real)
    requires step.left in step.live && step.right in step.live && step.left != step.right
    requires pairCost(step.left.value, step.right.value) <= threshold
    requires Cheapest(pairCost(step.left.value, step.right.value), step.live, pairCost)
    ensures Greedy(step, threshold, pairCost)
  {
  }

  lemma TwoFewer<V>(live: set<Item<V>>, l: Item<V>, r: Item<V>)
    requires l in live && r in live && l != r
    ensures |live - {l, r}| == |live| - 2
  {
    assert live == (live - {l, r}) + {l, r};
  }

  lemma TwoMore<V>(deleted: set<Item<V>>, l: Item<V>, r: Item<V>)
    requires l !in deleted && r !in deleted && l != r
    ensures |deleted + {l, r}| == |deleted| + 2
  {
    assert deleted + {l, r} == (deleted + {l}) + {r};
  }

  class MergeUtility<V> {
    var pairs: seq<Pair<V>>
    var objectSet: set<Item<V>>

    /** Between calls both members are empty. */
    ghost predicate Idle()
      reads this
    {
      pairs == [] && objectSet == {}
    }

    constructor ()
      ensures Idle()
    {
      pairs, objectSet := [], {};
    }

    /** The state of the loop: the pair list, the merge forest and the objects deleted so far. */
    ghost predicate InProgress(inputs: set<Item<V>>, trees: map<Item<V>, Tree<V>>, deleted: set<Item<V>>,
                               combine: (V, V) -> V, pairCost: (V, V) -> real)
      reads this
    {
      PairsOf(pairs, objectSet, pairCost) && Forest(objectSet, trees, inputs, combine) && deleted !! objectSet
    }

    /**
     Sorts the pairs and merges the cheapest one, if it is within the threshold.  `stale` counts the
     entries the cleanup loop drops: there are none.
     */
    method MergeBest(threshold: real, combine: (V, V) -> V, pairCost: (V, V) -> real,
                     ghost inputs: set<Item<V>>, ghost trees: map<Item<V>, Tree<V>>, ghost deleted: set<Item<V>>)
      returns (merged: bool, ghost trees': map<Item<V>, Tree<V>>, ghost deleted': set<Item<V>>, ghost step: Merge<V>,
          ghost stale: nat)
      requires InProgress(inputs, trees, deleted, combine, pairCost) && |objectSet| > 1
      modifies this
      ensures InProgress(inputs, trees', deleted', combine, pairCost) && deleted <= deleted'
      ensures stale == 0
      ensures !merged ==> trees' == trees && deleted' == deleted
      ensures !merged ==> objectSet == old(objectSet) && TooCostly(objectSet, threshold, pairCost)
      ensures merged ==> Greedy(step, threshold, pairCost) && Starts(step, Stage(old(objectSet), trees, deleted))
      ensures merged ==> Stage(objectSet, trees', deleted') == After(Stage(old(objectSet), trees, deleted), step)
      ensures merged ==> |objectSet| == old(|objectSet|) - 1 && |deleted'| == |deleted| + 2
    {
      hide Forest, PairsOf, Permuted, Descending, Greedy, TooCostly;
      trees', deleted', stale := trees, deleted, 0;
      ghost var perm;
      ghost var before := pairs;
      pairs, perm := Sort(pairs);
      SortKeepsPairs(before, pairs, perm, objectSet, pairCost);
      LastIsBest(pairs, objectSet, pairCost);
      var best := pairs[|pairs| - 1];
      step := Merge(objectSet, best.left, best.right, best.left);
      if best.cost > threshold {
        CheapestTooCostly(best.cost, objectSet, threshold, pairCost);
        merged := false;
        return;
      }
      stale := Cleanup();
      best := pairs[|pairs| - 1];
      ghost var live := objectSet;
      ghost var added;
      trees', added := Replace(best.left, best.right, combine, pairCost, inputs, trees, deleted);
      step := Merge(live, best.left, best.right, added);
      StepIsGreedy(step, threshold, pairCost);
      deleted' := deleted + {best.left, best.right};
      TwoMore(deleted, best.left, best.right);
      merged := true;
    }

    /** The cleanup loop in place: the last entry is live, so nothing is dropped. */
    method Cleanup() returns (ghost stale: nat)
      requires pairs != [] && pairs[|pairs| - 1].left in objectSet && pairs[|pairs| - 1].right in objectSet
      modifies `pairs
      ensures stale == 0 && pairs == old(pairs)
    {
      assert pairs[|pairs| - 1] in pairs;
      var kept := DropStale(pairs, objectSet);
      stale := |pairs| - |kept|;
      pairs := kept;
    }

    /** Replaces two live objects by a new one and brings the pair list up to date. */
    method Replace(l: Item<V>, r: Item<V>, combine: (V, V) -> V, pairCost: (V, V) -> real,
                   ghost inputs: set<Item<V>>, ghost trees: map<Item<V>, Tree<V>>, ghost deleted: set<Item<V>>)
      returns (ghost trees': map<Item<V>, Tree<V>>, ghost added: Item<V>)
      requires InProgress(inputs, trees, deleted, combine, pairCost) && l in objectSet && r in objectSet && l != r
      modifies this
      ensures InProgress(inputs, trees', deleted + {l, r}, combine, pairCost)
      ensures fresh(added) && added !in old(objectSet) && added !in deleted
      ensures objectSet == old(objectSet) - {l, r} + {added}
      ensures l in trees && r in trees && trees' == Grown(trees, l, r, added)
      ensures |objectSet| == |old(objectSet)| - 1
    {
      hide Forest, NoTwins, Complete;
      ghost var live, before := objectSet, pairs;
      var merged := new Item(combine(l.value, r.value));
      assert merged !in live;
      TwoFewer(live, l, r);
      objectSet := objectSet - {l, r};
      var kept := DropPairs(pairs, l, r);
      pairs := AddPairs(kept, objectSet, merged, pairCost);
      MergedPairs(before, kept, pairs, live, l, r, merged, pairCost);
      ForestKept(live, trees, inputs, combine, l, r, merged);
      trees', added := Grown(trees, l, r, merged), merged;
      objectSet := objectSet + {merged};
    }

    /** The results in whatever order the set is traversed. */
    method Drain() returns (v: seq<Item<V>>)
      modifies this
      ensures Idle() && Elements(v) == old(objectSet) && Distinct(v) && |v| == |old(objectSet)|
    {
      v := [];
      var rest := objectSet;
      while rest != {}
        invariant rest <= objectSet && Distinct(v) && forall x :: x in v <==> x in objectSet - rest
        invariant |v| + |rest| == |objectSet|
      {
        var o :| o in rest;
        assert o !in v;
        v, rest := v + [o], rest - {o};
      }
      objectSet := {};
      pairs := [];
    }

    /**
     On distinct inputs: the log of merges, replayed from the inputs, gives the results, their merge trees and the
     deleted objects; every merge took a cheapest live pair and brought a new object; the trees partition the inputs,
     no pair entry was ever stale, no result was deleted and no object was deleted twice; and merging stopped above
     max(count, 1) objects only if every remaining pair costs more than the threshold.
     */
    method MergeItems(objects: seq<Item<V>>, count: int, threshold: real, combine: (V, V) -> V,
        pairCost: (V, V) -> real)
      returns (result: seq<Item<V>>, ghost trees: map<Item<V>, Tree<V>>, ghost deleted: set<Item<V>>,
          ghost log: seq<Merge<V>>, ghost stale: nat)
      requires Idle() && Distinct(objects)
      modifies this
      ensures Idle() && Distinct(result) && stale == 0
      ensures Forest(Elements(result), trees, Elements(objects), combine)
      ensures deleted !! Elements(result) && |deleted| == 2 * |log|
      ensures Coherent(objects, log) && Replay(objects, log) == Stage(Elements(result), trees, deleted)
      ensures forall k | 0 <= k < |log| :: Greedy(log[k], threshold, pairCost)
      ensures |result| == |objects| - |log|
      ensures |objects| <= count ==> result == objects
      ensures |objects| > count ==> |result| >= count
      ensures |result| <= (if count > 1 then count else 1) || TooCostly(Elements(result), threshold, pairCost)
    {
      hide Forest, PairsOf, Greedy, TooCostly, Distinct, After, Starts;
      ForestPlanted(objects, combine);
      trees, deleted, log, stale := Planted(objects), {}, [], 0;
      if |objects| <= count {
        return objects, trees, deleted, log, stale;
      }
      objectSet := set o | o in objects;
      SizeOfElements(objects);
      pairs := InitialPairs(objects, pairCost);
      var merged := true;
      while merged && |objectSet| > count && |objectSet| > 1
        invariant InProgress(Elements(objects), trees, deleted, combine, pairCost)
        invariant |objectSet| == |objects| - |log| && |objectSet| >= count && |deleted| == 2 * |log|
        invariant forall k | 0 <= k < |log| :: Greedy(log[k], threshold, pairCost)
        invariant !merged ==> TooCostly(objectSet, threshold, pairCost)
        invariant Coherent(objects, log) && Replay(objects, log) == Stage(objectSet, trees, deleted)
        invariant stale == 0
        decreases merged, |objectSet|
      {
        ghost var step, dropped;
        merged, trees, deleted, step, dropped :=
            MergeBest(threshold, combine, pairCost, Elements(objects), trees, deleted);
        stale := stale + dropped;
        if merged {
          CoherentExtended(objects, log, step);
          log := log + [step];
        }
      }
      result := Drain();
    }
  }

  lemma {:induction false} SizeOfElements<T>(s: seq<T>)
    requires Distinct(s)
    ensures |Elements(s)| == |s|
  {
    if |s| > 0 {
      var last := |s| - 1;
      SizeOfElements(s[..last]);
      assert s == s[..last] + [s[last]];
      assert Elements(s) == Elements(s[..last]) + {s[last]};
    }
  }
}
