/**
  Rebuilding a subtree into a fresh rope and rebalancing a rope whose sibling
  sizes drifted apart; a rebalanced, well-sized rope has logarithmic depth.
*/
module RopeBalance {
  import opened RopeCore

  /**
    Flattens an internal node into one leaf and adjusts it, which re-splits it when
    it is longer than SPLIT_LENGTH. A leaf is left alone.
  */
  function Rebuild(r: Rope): (r': Rope)
    requires Valid(r)
    ensures Valid(r') && Flatten(r') == Flatten(r) && r'.length == r.length
    ensures r.Leaf? ==> r' == r
    ensures r.Node? ==> r' == New(Flatten(r))
  {
    match r
    case Leaf(_, _) => r
    case Node(left, right, length) => Adjust(Leaf(Flatten(left) + Flatten(right), length))
  }

  /**
    Rebuilds every topmost internal node whose children's sizes are in a ratio above
    1.2 and recurses into the children of the others.
  */
  function Rebalance(r: Rope): (r': Rope)
    requires Valid(r)
    ensures Valid(r') && Flatten(r') == Flatten(r) && r'.length == r.length
    ensures Balanced(r')
    ensures WellSized(r) ==> WellSized(r')
  {
    match r
    case Leaf(_, _) => r
    case Node(left, right, length) =>
      if Unbalanced(left.length, right.length) then
        Rebuild(r)
      else
        Node(Rebalance(left), Rebalance(right), length)
  }

  /** Rebalancing a rope that is already balanced changes nothing. */
  lemma {:induction false} RebalanceBalancedIsIdentity(r: Rope)
    requires Valid(r) && Balanced(r)
    ensures Rebalance(r) == r
  {
    match r
    case Leaf(_, _) =>
    case Node(left, right, _) =>
      RebalanceBalancedIsIdentity(left);
      RebalanceBalancedIsIdentity(right);
  }

  /** Rebalancing twice is rebalancing once. */
  lemma RebalanceIdempotent(r: Rope)
    requires Valid(r)
    ensures Rebalance(Rebalance(r)) == Rebalance(r)
  {
    RebalanceBalancedIsIdentity(Rebalance(r));
  }

  /** The number of internal nodes on the longest root-to-leaf path. */
  function Depth(r: Rope): nat
  {
    match r
    case Leaf(_, _) => 0
    case Node(left, right, _) =>
      var d, e := Depth(left), Depth(right);
      1 + if d < e then e else d
  }

  function Pow(b: nat, k: nat): nat
  {
    if k == 0 then 1 else b * Pow(b, k - 1)
  }

  /**
    A rope of `length` units may have depth `depth`: either it is a leaf or it holds
    at least JOIN_LENGTH * (11/6)^(depth-1) units, so that its depth grows with the
    logarithm of its length.
  */
  predicate LogDepth(depth: nat, length: nat)
  {
    depth == 0 || JOIN_LENGTH * Pow(11, depth - 1) <= length * Pow(6, depth - 1)
  }

  /** A balanced, well-sized rope (in particular a rebalanced well-sized one) has logarithmic depth. */
  lemma {:induction false} BalancedDepthBound(r: Rope)
    requires Valid(r) && WellSized(r) && Balanced(r)
    ensures LogDepth(Depth(r), r.length)
  {
    match r
    case Leaf(_, _) =>
    case Node(left, right, _) =>
      NodeLengthIsSum(r);
      var deeper := if Depth(left) < Depth(right) then right else left;
      assert Depth(r) == 1 + Depth(deeper);
      if deeper.Node? {
        BalancedDepthBound(deeper);
        var k := Depth(deeper) - 1;
        // Balance gives 11 * |deeper| <= 6 * |r|.
        assert 11 * deeper.length <= 6 * r.length;
        GrowthStep(Pow(11, k), Pow(6, k), deeper.length, r.length);
      }
  }

  /** One level of the depth bound: a child at most 6/11 of its parent. */
  lemma GrowthStep(p: nat, q: nat, child: nat, parent: nat)
    requires JOIN_LENGTH * p <= child * q
    requires 11 * child <= 6 * parent
    ensures JOIN_LENGTH * (11 * p) <= parent * (6 * q)
  {
    calc {
      JOIN_LENGTH * (11 * p);
    ==
      11 * (JOIN_LENGTH * p);
    <=  { MulLeft(11, JOIN_LENGTH * p, child * q); }
      11 * (child * q);
    ==
      (11 * child) * q;
    <=  { MulRight(11 * child, 6 * parent, q); }
      (6 * parent) * q;
    ==
      parent * (6 * q);
    }
  }

  lemma MulLeft(c: nat, a: nat, b: nat)
    requires a <= b
    ensures c * a <= c * b
  {
  }

  lemma MulRight(a: nat, b: nat, c: nat)
    requires a <= b
    ensures a * c <= b * c
  {
  }
}
