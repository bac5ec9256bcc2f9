/**
  Read-only queries. Their offsets are signed and forgiving: they are clamped into
  the rope's span instead of being rejected.
*/
module RopeQuery {
  import opened Results
  import opened RopeCore

  /** A signed offset clamped into [0, length]. */
  function Clamp(x: int, length: nat): (c: nat)
    ensures c <= length
    ensures 0 <= x <= length ==> c == x
    ensures x < 0 ==> c == 0
    ensures x > length ==> c == length
  {
    if x < 0 then 0 else if x < length then x else length
  }

  /** The end offset of a substring: missing means the whole length. */
  function ClampEnd(end: Option<int>, length: nat): (c: nat)
    ensures c <= length
  {
    match end
    case None => length
    case Some(e) => Clamp(e, length)
  }

  /**
    The text over [start, end) with both bounds clamped. The clamped range is split
    between the children and a side whose share is empty is skipped. An inverted
    clamped range is not caught: it is passed down until a leaf slices it and aborts.
  */
  function Substring(r: Rope, start: int, end: Option<int>): (res: Result<string>)
    requires Valid(r)
    ensures var s, e := Clamp(start, r.length), ClampEnd(end, r.length);
            && (s <= e ==> res == Ok(Flatten(r)[s..e]))
            && (s > e ==> res == Err(InvertedSlice))
  {
    var s := Clamp(start, r.length);
    var e := ClampEnd(end, r.length);
    match r
    case Leaf(text, _) =>
      if s <= e then Ok(text[s..e]) else Err(InvertedSlice)
    case Node(left, right, _) =>
      var leftLength := left.length;
      var leftStart, leftEnd := Min(s, leftLength), Min(e, leftLength);
      var rightStart := Min(SatSub(s, leftLength), right.length);
      var rightEnd := Min(SatSub(e, leftLength), right.length);
      assert Valid(left) && Valid(right);
      NodeLengthIsSum(r);
      var fromLeft := Substring(left, leftStart, Some(leftEnd));
      var fromRight := Substring(right, rightStart, Some(rightEnd));
      SubstringPieces(Flatten(left), Flatten(right), s, e);
      if leftStart != leftEnd && rightStart != rightEnd then
        match fromLeft
        case Err(p) => Err(p)
        case Ok(a) =>
          match fromRight
          case Err(p) => Err(p)
          case Ok(b) => Ok(a + b)
      else if leftStart != leftEnd then
        fromLeft
      else if rightStart != rightEnd then
        fromRight
      else
        Ok([])
  }

  /**
    Slicing a concatenation: a well-formed range is the concatenation of its clamped
    pieces; an inverted range leaves at least one side with an inverted piece.
  */
  lemma SubstringPieces(a: string, b: string, s: nat, e: nat)
    requires s <= |a| + |b| && e <= |a| + |b|
    ensures var ls, le := Min(s, |a|), Min(e, |a|);
            var rs, re := Min(SatSub(s, |a|), |b|), Min(SatSub(e, |a|), |b|);
            && (s <= e ==> ls <= le && rs <= re && (a + b)[s..e] == a[ls..le] + b[rs..re])
            && (s <= e && rs == re ==> (a + b)[s..e] == a[ls..le])
            && (s <= e && ls == le ==> (a + b)[s..e] == b[rs..re])
            && (s > e ==> ls > le || rs > re)
  {
    var ab := a + b;
    if s <= e {
      if e <= |a| {
        assert ab[s..e] == a[s..e];
      } else if s >= |a| {
        assert ab[s..e] == b[s - |a|..e - |a|];
      } else {
        assert ab[s..e] == a[s..] + b[..e - |a|];
      }
    }
  }

  /** A substr start: a negative one counts back from the end of the rope, floored at zero. */
  function ResolveStart(start: int, length: nat): (from: nat)
  {
    if start >= 0 then start else if length + start >= 0 then length + start else 0
  }

  /**
    Up to `length` units from `start`. A negative start counts back from the end of
    the rope (floored at zero); a missing length means "to the end"; a negative length
    makes the end 0, which yields the empty text only when the resolved start is 0
    and otherwise aborts like any inverted range.
  */
  function Substr(r: Rope, start: int, length: Option<int>): (res: Result<string>)
    requires Valid(r)
    ensures var from := ResolveStart(start, r.length);
            var s := Clamp(from, r.length);
            && (start < 0 ==> s == if r.length + start >= 0 then r.length + start else 0)
            && (length.None? ==> res == Ok(Flatten(r)[s..]))
            && (length.Some? && length.value >= 0 ==>
                  res == Ok(Flatten(r)[s..Clamp(from + length.value, r.length)]))
            && (length.Some? && length.value < 0 ==>
                  res == if s == 0 then Ok([]) else Err(InvertedSlice))
  {
    var from := ResolveStart(start, r.length);
    var end := match length
      case None => r.length
      case Some(n) => if n < 0 then 0 else from + n;
    assert Flatten(r)[Clamp(from, r.length)..r.length] == Flatten(r)[Clamp(from, r.length)..];
    Substring(r, from, Some(end))
  }

  /**
    Substr with a negative length read as a zero-width request at the resolved start,
    the reading its doc comment, which lists no panic, suggests: it never aborts.
  */
  function SubstrIntended(r: Rope, start: int, length: Option<int>): (res: Result<string>)
    requires Valid(r)
    ensures res.Ok?
    ensures length.Some? && length.value < 0 ==> res == Ok([])
    ensures length.None? || length.value >= 0 ==> res == Substr(r, start, length)
  {
    if length.Some? && length.value < 0 then
      var from := ResolveStart(start, r.length);
      assert Flatten(r)[Clamp(from, r.length)..Clamp(from, r.length)] == [];
      Substring(r, from, Some(from))
    else
      Substr(r, start, length)
  }

  /** As written, a negative length with a start inside the rope aborts instead of giving the empty text. */
  lemma SubstrNegativeLengthAborts()
    ensures Substr(New("0123456789"), 3, Some(-1)) == Err(InvertedSlice)
    ensures SubstrIntended(New("0123456789"), 3, Some(-1)) == Ok([])
  {
  }

  /** The one unit at `position` as a text, or the empty text when `position` is outside the rope. */
  function CharAt(r: Rope, position: int): (c: string)
    requires Valid(r)
    ensures 0 <= position < r.length ==> c == [Flatten(r)[position]]
    ensures !(0 <= position < r.length) ==> c == []
  {
    Substring(r, position, Some(position + 1)).value
  }

  /** The numeric value of the unit at `position`; aborts when `position` is outside the rope. */
  function CharCodeAt(r: Rope, position: int): (res: Result<nat>)
    requires Valid(r)
    ensures res.Ok? <==> 0 <= position < r.length
    ensures res.Ok? ==> res.value == Flatten(r)[position] as nat
    ensures res.Err? ==> res.panic == InvalidPosition
  {
    var ch := Substring(r, position, Some(position + 1)).value;
    if |ch| == 0 then Err(InvalidPosition) else Ok(ch[0] as nat)
  }
}
