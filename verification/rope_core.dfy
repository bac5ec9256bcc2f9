/**
  The rope node, its abstraction function and the self-adjustment rule.

  A rope is a binary tree: a leaf holds a chunk of text, an internal node owns two
  sub-ropes. Every node caches the length of the text it represents. A text unit
  is modelled as one `char`.
*/
module RopeCore {

  /** A leaf longer than this is split in two. */
  const SPLIT_LENGTH: nat := 1000
  /** An internal node shorter than this is collapsed into a leaf. */
  const JOIN_LENGTH: nat := 500

  datatype Rope =
    | Leaf(text: string, length: nat)
    | Node(left: Rope, right: Rope, length: nat)

  /** The text a rope represents: its leaves, left to right. */
  function Flatten(r: Rope): string
  {
    match r
    case Leaf(text, _) => text
    case Node(left, right, _) => Flatten(left) + Flatten(right)
  }

  /** Every node caches the exact length of the text below it. */
  predicate Valid(r: Rope)
  {
    && r.length == |Flatten(r)|
    && match r
       case Leaf(_, _) => true
       case Node(left, right, _) => Valid(left) && Valid(right)
  }

  /** Every leaf is at most SPLIT_LENGTH long and every internal node at least JOIN_LENGTH. */
  predicate WellSized(r: Rope)
  {
    match r
    case Leaf(_, length) => length <= SPLIT_LENGTH
    case Node(left, right, length) => JOIN_LENGTH <= length && WellSized(left) && WellSized(right)
  }

  /**
    Sibling sizes `a` and `b` are in a ratio above 1.2 either way. This is the exact
    rational form of `a / b > 1.2 || b / a > 1.2`: one empty side against a non-empty
    one is unbalanced (an infinite ratio), two empty sides are not (NaN compares false).
  */
  predicate Unbalanced(a: nat, b: nat)
  {
    5 * a > 6 * b || 5 * b > 6 * a
  }

  /** No internal node has sibling sizes in a ratio above 1.2. */
  predicate Balanced(r: Rope)
  {
    match r
    case Leaf(_, _) => true
    case Node(left, right, _) => !Unbalanced(left.length, right.length) && Balanced(left) && Balanced(right)
  }

  function Min(a: nat, b: nat): nat { if a < b then a else b }

  /** `a - b` floored at zero: unsigned saturating subtraction. */
  function SatSub(a: nat, b: nat): nat { if a < b then 0 else a - b }

  /** Under `Valid`, the cached length of an internal node is the sum of its children's. */
  lemma {:induction false} NodeLengthIsSum(r: Rope)
    requires Valid(r) && r.Node?
    ensures r.length == r.left.length + r.right.length
  {
    assert Flatten(r) == Flatten(r.left) + Flatten(r.right);
  }

  /** Halves of a split leaf are in a ratio of at most 1.2. */
  lemma HalvesBalanced(n: nat)
    requires n > SPLIT_LENGTH
    ensures !Unbalanced(n / 2, n - n / 2)
  {
    var h := n / 2;
    assert n == 2 * h || n == 2 * h + 1;
  }

  /** A fresh rope holding `s`, split into a tree when `s` is longer than SPLIT_LENGTH. */
  function New(s: string): (r: Rope)
    ensures Valid(r) && WellSized(r) && Balanced(r)
    ensures Flatten(r) == s && r.length == |s|
    ensures r.Leaf? <==> |s| <= SPLIT_LENGTH
    decreases |s|, 1
  {
    Adjust(Leaf(s, |s|))
  }

  /**
    Splits an over-long leaf at half its length into two fresh ropes, or collapses a
    short internal node into one leaf; leaves every other node alone. The cached
    length is kept as it is.
  */
  function Adjust(r: Rope): (r': Rope)
    requires Valid(r)
    ensures Valid(r') && Flatten(r') == Flatten(r) && r'.length == r.length
    ensures r.Leaf? ==> (r'.Node? <==> r.length > SPLIT_LENGTH)
    ensures r.Node? ==> (r'.Leaf? <==> r.length < JOIN_LENGTH)
    ensures r.Leaf? && r'.Node? ==> r'.left.length == r.length / 2
    ensures r'.Leaf? ==> r'.length <= SPLIT_LENGTH
    ensures r'.Node? ==> r'.length >= JOIN_LENGTH
    ensures (r.Leaf? || (WellSized(r.left) && WellSized(r.right))) ==> WellSized(r')
    ensures (r.Leaf? || Balanced(r)) ==> Balanced(r')
    decreases if r.Leaf? then |r.text| else 0, 0
  {
    match r
    case Leaf(text, length) =>
      if length > SPLIT_LENGTH then
        var divide := length / 2;
        HalvesBalanced(length);
        Node(New(text[..divide]), New(text[divide..]), length)
      else
        r
    case Node(left, right, length) =>
      if length < JOIN_LENGTH then
        Leaf(Flatten(left) + Flatten(right), length)
      else
        r
  }

  /**
    An internal node over two (possibly changed) children: the cached length is
    recomputed from the children and the node is adjusted.
  */
  function Reattach(left: Rope, right: Rope): (r: Rope)
    requires Valid(left) && Valid(right)
    ensures Valid(r) && Flatten(r) == Flatten(left) + Flatten(right)
    ensures r.length == left.length + right.length
    ensures WellSized(left) && WellSized(right) ==> WellSized(r)
    ensures r.length >= JOIN_LENGTH ==> r == Node(left, right, r.length)
    ensures r.length < JOIN_LENGTH ==> r.Leaf?
  {
    Adjust(Node(left, right, left.length + right.length))
  }
}
