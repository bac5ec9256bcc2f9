/**
  Insertion and removal: recursive splices that route an offset to the child
  holding it and re-adjust every node on the way back up.
*/
module RopeEdit {
  import opened Results
  import opened RopeCore

  /**
    Inserts `value` so that it starts at `position`. A position equal to the left
    child's length goes to the right child.
  */
  function Insert(r: Rope, position: nat, value: string): (r': Rope)
    requires Valid(r)
    requires position <= r.length
    ensures Valid(r')
    ensures Flatten(r') == Flatten(r)[..position] + value + Flatten(r)[position..]
    ensures r'.length == r.length + |value|
    ensures WellSized(r) ==> WellSized(r')
    ensures r'.length < JOIN_LENGTH ==> r'.Leaf?
    ensures r.Node? && r.length + |value| >= JOIN_LENGTH ==>
              && r'.Node?
              && (position < r.left.length ==> r'.right == r.right)
              && (position >= r.left.length ==> r'.left == r.left)
  {
    match r
    case Leaf(text, _) =>
      var text' := text[..position] + value + text[position..];
      Adjust(Leaf(text', |text'|))
    case Node(left, right, _) =>
      var leftLength := left.length;
      InsertSplice(Flatten(left), Flatten(right), position, value);
      if position < leftLength then
        var left' := Insert(left, position, value);
        Reattach(left', right)
      else
        var right' := Insert(right, position - leftLength, value);
        Reattach(left, right')
  }

  /** Inserting into a concatenation inserts into the half that holds the position. */
  lemma InsertSplice(a: string, b: string, position: nat, value: string)
    requires position <= |a| + |b|
    ensures position < |a| ==>
              (a[..position] + value + a[position..]) + b == (a + b)[..position] + value + (a + b)[position..]
    ensures position >= |a| ==>
              a + (b[..position - |a|] + value + b[position - |a|..]) == (a + b)[..position] + value + (a + b)[position..]
  {
    var ab := a + b;
    if position < |a| {
      assert ab[..position] == a[..position];
      assert ab[position..] == a[position..] + b;
    } else {
      assert ab[..position] == a + b[..position - |a|];
      assert ab[position..] == b[position - |a|..];
    }
  }

  /** Insert with its fatal path: a position past the end aborts. */
  function TryInsert(r: Rope, position: nat, value: string): (res: Result<Rope>)
    requires Valid(r)
    ensures res.Err? <==> position > |Flatten(r)|
    ensures res.Err? ==> res.panic == PositionOutOfBounds
    ensures res.Ok? ==> && Valid(res.value)
                        && Flatten(res.value) == Flatten(r)[..position] + value + Flatten(r)[position..]
  {
    if position > r.length then Err(PositionOutOfBounds)
    else Ok(Insert(r, position, value))
  }

  /** Removes the half-open range [start, end). */
  function Remove(r: Rope, start: nat, end: nat): (r': Rope)
    requires Valid(r)
    requires start <= end <= r.length
    ensures Valid(r')
    ensures Flatten(r') == Flatten(r)[..start] + Flatten(r)[end..]
    ensures r'.length == r.length - (end - start)
    ensures WellSized(r) ==> WellSized(r')
    ensures r'.length < JOIN_LENGTH ==> r'.Leaf?
    decreases r, 1
  {
    match r
    case Leaf(text, _) =>
      var text' := text[..start] + text[end..];
      Adjust(Leaf(text', |text'|))
    case Node(_, _, _) =>
      RemoveAcross(r, start, end)
  }

  /**
    Remove on an internal node. Each child is handed the range clamped to its own
    span; the left child is visited when the clamped start lies inside it, the right
    child when the clamped end is past its beginning (an empty clamped range can
    still be visited).
  */
  function RemoveAcross(r: Rope, start: nat, end: nat): (r': Rope)
    requires Valid(r) && r.Node?
    requires start <= end <= r.length
    ensures Valid(r')
    ensures Flatten(r') == Flatten(r)[..start] + Flatten(r)[end..]
    ensures r'.length == r.length - (end - start)
    ensures WellSized(r) ==> WellSized(r')
    ensures r'.length < JOIN_LENGTH ==> r'.Leaf?
    decreases r, 0
  {
    var left, right := r.left, r.right;
    var leftLength := left.length;
    var leftStart := Min(start, leftLength);
    var leftEnd := Min(end, leftLength);
    var rightStart := Min(SatSub(start, leftLength), right.length);
    var rightEnd := Min(SatSub(end, leftLength), right.length);
    NodeLengthIsSum(r);
    ClampedRanges(start, end, leftLength, right.length);
    assert Valid(left) && Valid(right);
    var left' := if leftStart < leftLength then Remove(left, leftStart, leftEnd) else left;
    var right' := if rightEnd > 0 then Remove(right, rightStart, rightEnd) else right;
    assert left.length == |Flatten(left)| && right.length == |Flatten(right)|;
    RemoveChildrenText(Flatten(left), Flatten(right), start, end, Flatten(left'), Flatten(right'));
    Reattach(left', right')
  }

  /**
    Unless the node collapses, a child Remove does not visit is kept as it is: the
    left child when the clamped start is not inside it, the right child when the
    clamped end is at its beginning.
  */
  lemma RemoveKeepsUntouchedChild(r: Rope, start: nat, end: nat)
    requires Valid(r) && r.Node?
    requires start <= end <= r.length
    requires r.length - (end - start) >= JOIN_LENGTH
    ensures Remove(r, start, end).Node?
    ensures Min(start, r.left.length) >= r.left.length ==> Remove(r, start, end).left == r.left
    ensures Min(SatSub(end, r.left.length), r.right.length) == 0 ==> Remove(r, start, end).right == r.right
  {
  }

  /** The per-child ranges of a split range are well-formed and partition it. */
  lemma ClampedRanges(start: nat, end: nat, leftLength: nat, rightLength: nat)
    requires start <= end <= leftLength + rightLength
    ensures Min(start, leftLength) <= Min(end, leftLength) <= leftLength
    ensures Min(SatSub(start, leftLength), rightLength) <= Min(SatSub(end, leftLength), rightLength) <= rightLength
    ensures end - start == (Min(end, leftLength) - Min(start, leftLength))
                         + (Min(SatSub(end, leftLength), rightLength) - Min(SatSub(start, leftLength), rightLength))
  {
  }

  /**
    The texts `a'` and `b'` of two children after Remove has visited them (or kept
    them, when not visited) join up to the parent's text with the range removed.
  */
  lemma RemoveChildrenText(a: string, b: string, start: nat, end: nat, a': string, b': string)
    requires start <= end <= |a| + |b|
    requires Min(start, |a|) < |a| ==> a' == a[..Min(start, |a|)] + a[Min(end, |a|)..]
    requires Min(start, |a|) >= |a| ==> a' == a
    requires Min(SatSub(end, |a|), |b|) > 0 ==>
               b' == b[..Min(SatSub(start, |a|), |b|)] + b[Min(SatSub(end, |a|), |b|)..]
    requires Min(SatSub(end, |a|), |b|) == 0 ==> b' == b
    ensures a' + b' == (a + b)[..start] + (a + b)[end..]
  {
    assert a[..|a|] + a[|a|..] == a;
    assert b[..0] + b[0..] == b;
    RemoveSplice(a, b, start, end);
  }

  /** Removing a range from a concatenation removes the clamped pieces from each half. */
  lemma RemoveSplice(a: string, b: string, start: nat, end: nat)
    requires start <= end <= |a| + |b|
    ensures var ls, le := Min(start, |a|), Min(end, |a|);
            var rs, re := Min(SatSub(start, |a|), |b|), Min(SatSub(end, |a|), |b|);
            (a[..ls] + a[le..]) + (b[..rs] + b[re..]) == (a + b)[..start] + (a + b)[end..]
  {
    var ab := a + b;
    if end <= |a| {
      assert ab[..start] == a[..start];
      assert ab[end..] == a[end..] + b;
    } else if start >= |a| {
      assert ab[..start] == a + b[..start - |a|];
      assert ab[end..] == b[end - |a|..];
    } else {
      assert ab[..start] == a[..start];
      assert ab[end..] == b[end - |a|..];
    }
  }

  /** Remove with its fatal paths, checked in the order the source checks them. */
  function TryRemove(r: Rope, start: nat, end: nat): (res: Result<Rope>)
    requires Valid(r)
    ensures res.Err? <==> !(start <= end <= |Flatten(r)|)
    ensures start > |Flatten(r)| ==> res == Err(StartOutOfBounds)
    ensures start <= |Flatten(r)| < end ==> res == Err(EndOutOfBounds)
    ensures start <= |Flatten(r)| && end <= |Flatten(r)| && start > end ==> res == Err(StartAfterEnd)
    ensures res.Ok? ==> && Valid(res.value)
                        && Flatten(res.value) == Flatten(r)[..start] + Flatten(r)[end..]
  {
    if start > r.length then Err(StartOutOfBounds)
    else if end > r.length then Err(EndOutOfBounds)
    else if start > end then Err(StartAfterEnd)
    else Ok(Remove(r, start, end))
  }

  /** Removing what was just inserted gives back the original text. */
  lemma RemoveUndoesInsert(r: Rope, position: nat, value: string)
    requires Valid(r)
    requires position <= r.length
    ensures var r' := Insert(r, position, value);
            && position + |value| <= r'.length
            && Flatten(Remove(r', position, position + |value|)) == Flatten(r)
  {
    var s := Flatten(r);
    var s' := s[..position] + value + s[position..];
    assert s'[..position] == s[..position];
    assert s'[position + |value|..] == s[position..];
    assert s[..position] + s[position..] == s;
  }

  /** On a well-sized rope, removing an empty range gives back the very same tree. */
  lemma {:induction false} RemoveEmptyIsIdentity(r: Rope, position: nat)
    requires Valid(r) && WellSized(r)
    requires position <= r.length
    ensures Remove(r, position, position) == r
  {
    match r
    case Leaf(text, _) =>
      assert text[..position] + text[position..] == text;
    case Node(left, right, _) =>
      var leftLength := left.length;
      var leftStart := Min(position, leftLength);
      var rightStart := Min(SatSub(position, leftLength), right.length);
      if leftStart < leftLength {
        RemoveEmptyIsIdentity(left, leftStart);
      }
      if rightStart > 0 {
        RemoveEmptyIsIdentity(right, rightStart);
      }
      NodeLengthIsSum(r);
  }
}
