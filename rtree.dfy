/**
 * A node of a regression tree as gradient boosting updates it. The node's
 * identity (id, parent, group name, row predicate, depth) is fixed at
 * construction; the leaf flag, fitted value, weight, best split candidate
 * and children list are set afterwards. Boosting refits the tree in place:
 * the shape is kept and every leaf gets the loss's best constant over the
 * rows that reach it. The loss and the splitter are parameters.
 */
module RTree {
  import opened Wrappers

  /** The rows a mapping selects, in the mapping's order. */
  function MapRows<T>(s: seq<T>, m: seq<int>): (r: seq<T>)
    requires forall j :: 0 <= j < |m| ==> 0 <= m[j] < |s|
    ensures |r| == |m|
    ensures forall j :: 0 <= j < |m| ==> r[j] == s[m[j]]
  {
    if |m| == 0 then [] else MapRows(s, m[..|m| - 1]) + [s[m[|m| - 1]]]
  }

  /** A weight of 1 for each of n rows. */
  function Ones(n: nat): seq<real>
  {
    seq(n, _ => 1.0)
  }

  /**
   * The splitter maps the rows of a frame to one mapping per group
   * predicate, each holding row indexes of that frame.
   */
  ghost predicate SplitsRows<R(!new), P(!new)>(split: (seq<R>, seq<real>, seq<P>) -> seq<seq<int>>)
  {
    forall x: seq<R>, w: seq<real>, preds: seq<P> ::
      && |split(x, w, preds)| >= |preds|
      && forall i, j :: 0 <= i < |preds| && 0 <= j < |split(x, w, preds)[i]| ==> 0 <= split(x, w, preds)[i][j] < |x|
  }

  /** The nodes' row predicates, in order. */
  function PredicatesOf<P(!new), C>(nodes: seq<RTreeNode<P, C>>): (ps: seq<P>)
    ensures |ps| == |nodes|
    ensures forall i :: 0 <= i < |nodes| ==> ps[i] == nodes[i].rowPredicate
  {
    if |nodes| == 0 then [] else PredicatesOf(nodes[..|nodes| - 1]) + [nodes[|nodes| - 1].rowPredicate]
  }

  /** Mappings for the first n groups, each holding row indexes of a frame of `rows` rows. */
  predicate MappingsFit(mappings: seq<seq<int>>, n: nat, rows: nat)
  {
    |mappings| >= n && forall i, j :: 0 <= i < n && 0 <= j < |mappings[i]| ==> 0 <= mappings[i][j] < rows
  }

  class RTreeNode<P(!new), C> {
    const id: int
    const parent: RTreeNode?<P, C>
    const groupName: string
    const rowPredicate: P
    const depth: int

    var leaf: bool
    var value: real
    var weight: real
    var children: seq<RTreeNode<P, C>>
    var bestCandidate: Option<C>

    /** The nodes of the subtree rooted here. */
    ghost var repr: set<RTreeNode<P, C>>

    /** The subtree is a tree: every child's subtree lies inside this one, below it, apart from its siblings'. */
    ghost predicate Valid()
      reads this`children, this`repr, repr`children, repr`repr
      decreases repr
    {
      && this in repr
      && (forall i :: 0 <= i < |children| ==>
            children[i] in repr && children[i].repr <= repr && this !in children[i].repr)
      && (forall i, j :: 0 <= i < j < |children| ==> children[i].repr !! children[j].repr)
      && (forall i :: 0 <= i < |children| ==> children[i].Valid())
    }

    /** A new node is a leaf without children, value, weight or candidate. */
    constructor (id: int, parent: RTreeNode?<P, C>, groupName: string, rowPredicate: P, depth: int)
      ensures this.id == id && this.parent == parent && this.groupName == groupName
      ensures this.rowPredicate == rowPredicate && this.depth == depth
      ensures leaf && children == [] && value == 0.0 && weight == 0.0 && bestCandidate == None
      ensures Valid() && repr == {this}
    {
      this.id := id;
      this.parent := parent;
      this.groupName := groupName;
      this.rowPredicate := rowPredicate;
      this.depth := depth;
      leaf := true;
      value := 0.0;
      weight := 0.0;
      children := [];
      bestCandidate := None;
      repr := {this};
    }

    method SetLeaf(leaf: bool)
      modifies this`leaf
      ensures this.leaf == leaf
    {
      this.leaf := leaf;
    }

    method SetValue(value: real)
      modifies this`value
      ensures this.value == value
    {
      this.value := value;
    }

    method SetWeight(weight: real)
      modifies this`weight
      ensures this.weight == weight
    {
      this.weight := weight;
    }

    method SetBestCandidate(bestCandidate: Option<C>)
      modifies this`bestCandidate
      ensures this.bestCandidate == bestCandidate
    {
      this.bestCandidate := bestCandidate;
    }

    /**
     * Appends a node to the live children list (what the tree builder does
     * through the list the children getter returns).
     */
    method AddChild(c: RTreeNode<P, C>)
      requires Valid() && c.Valid() && c.repr !! repr
      modifies this`children, this`repr
      ensures children == old(children) + [c] && repr == old(repr) + c.repr
      ensures Valid()
    {
      children := children + [c];
      repr := repr + c.repr;
      forall i, j | 0 <= i < j < |children|
        ensures children[i].repr !! children[j].repr
      {
        if j < |children| - 1 {
          assert children[j] == old(children)[j];
        }
      }
    }

    /**
     * The subtree is fitted to the rows (x, y, fx): a leaf holds the loss's
     * best constant for them; an internal node passes the rows of the
     * splitter's mapping i, for its children's predicates, to child i.
     */
    ghost predicate Boosted<R(!new)>(x: seq<R>, y: seq<real>, fx: seq<real>,
                               findMinimum: (seq<real>, seq<real>) -> real,
                               split: (seq<R>, seq<real>, seq<P>) -> seq<seq<int>>)
      reads this`leaf, this`value, this`children, this`repr
      reads repr`leaf, repr`value, repr`children, repr`repr
      requires Valid() && |y| == |x| <= |fx| && SplitsRows(split)
      decreases repr
    {
      if leaf then value == findMinimum(y, fx)
      else
        var m := split(x, Ones(|x|), PredicatesOf(children));
        forall i :: 0 <= i < |children| ==>
          children[i].Boosted(MapRows(x, m[i]), MapRows(y, m[i]), MapRows(fx, m[i]), findMinimum, split)
    }

    /**
     * Refits the subtree's leaf values to the rows (x, y, fx). Only leaf
     * values change: the shape, the leaf flags, the weights, the candidates
     * and the values of internal nodes are kept.
     */
    method BoostUpdate<R(!new)>(x: seq<R>, y: seq<real>, fx: seq<real>,
                                findMinimum: (seq<real>, seq<real>) -> real,
                                split: (seq<R>, seq<real>, seq<P>) -> seq<seq<int>>)
      requires Valid() && |y| == |x| <= |fx| && SplitsRows(split)
      modifies repr`value
      decreases repr, 1
      ensures Valid()
      ensures Boosted(x, y, fx, findMinimum, split)
      ensures forall n :: n in repr ==>
                && n.leaf == old(n.leaf) && n.children == old(n.children) && n.repr == old(n.repr)
                && n.weight == old(n.weight) && n.bestCandidate == old(n.bestCandidate)
      ensures forall n :: n in repr && !n.leaf ==> n.value == old(n.value)
    {
      if leaf {
        value := findMinimum(y, fx);
        return;
      }
      var groupPredicates := GroupPredicates();
      var mappings := split(x, Ones(|x|), groupPredicates);
      BoostChildren(x, y, fx, findMinimum, split, mappings);
    }

    /** The children's predicates, collected in children order. */
    method GroupPredicates() returns (ps: seq<P>)
      ensures ps == PredicatesOf(children)
    {
      ps := [];
      var k := 0;
      while k < |children|
        invariant 0 <= k <= |children|
        invariant ps == PredicatesOf(children[..k])
      {
        assert children[..k + 1][..k] == children[..k];
        ps := ps + [children[k].rowPredicate];
        k := k + 1;
      }
      assert children[..k] == children;
    }

    /** Refits child i of the subtree to the rows of mapping i, for every child in order. */
    method BoostChildren<R(!new)>(x: seq<R>, y: seq<real>, fx: seq<real>,
                                  findMinimum: (seq<real>, seq<real>) -> real,
                                  split: (seq<R>, seq<real>, seq<P>) -> seq<seq<int>>,
                                  mappings: seq<seq<int>>)
      requires Valid() && |y| == |x| <= |fx| && SplitsRows(split)
      requires MappingsFit(mappings, |children|, |x|)
      modifies repr`value
      decreases repr, 0
      ensures Valid()
      ensures forall j :: 0 <= j < |children| ==>
                children[j].Boosted(MapRows(x, mappings[j]), MapRows(y, mappings[j]), MapRows(fx, mappings[j]), findMinimum, split)
      ensures forall n :: n in repr && !n.leaf ==> n.value == old(n.value)
    {
      var i := 0;
      while i < |children|
        invariant 0 <= i <= |children|
        invariant Valid()
        invariant forall j :: 0 <= j < i ==>
                    children[j].Boosted(MapRows(x, mappings[j]), MapRows(y, mappings[j]), MapRows(fx, mappings[j]), findMinimum, split)
        invariant forall n :: n in repr && !n.leaf ==> n.value == old(n.value)
      {
        var c := children[i];
        c.BoostUpdate(MapRows(x, mappings[i]), MapRows(y, mappings[i]), MapRows(fx, mappings[i]), findMinimum, split);
        i := i + 1;
      }
    }
  }
}
