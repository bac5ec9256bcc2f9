/** Concrete uses of the rope, each derived from the operations' contracts. */
module RopeScenarios {
  import opened Results
  import opened RopeCore
  import opened RopeEdit
  import opened RopeQuery

  /** Editing, reading and the fatal paths on "hello world". */
  lemma HelloWorld()
    ensures var r := New("hello world");
            && r.length == 11
            && Flatten(Insert(r, 5, ",")) == "hello, world"
            && Flatten(Remove(Insert(r, 5, ","), 5, 6)) == "hello world"
            && CharAt(r, 0) == "h"
            && CharCodeAt(r, 0) == Ok(104)
            && TryInsert(r, 100, "x") == Err(PositionOutOfBounds)
            && TryRemove(r, 5, 2) == Err(StartAfterEnd)
  {
    var r := New("hello world");
    var r' := Insert(r, 5, ",");
    assert Flatten(r') == "hello" + "," + " world";
    assert Flatten(r')[..5] + Flatten(r')[6..] == "hello world";
  }

  /** Construction splits text over SPLIT_LENGTH units and keeps shorter text in one leaf. */
  lemma SplitThreshold()
    ensures New(seq(1500, _ => 'a')).Node?
    ensures New(seq(400, _ => 'a')).Leaf?
  {
  }

  /** Removing 900 of 1200 units through the public remove collapses the split rope into one leaf. */
  lemma JoinThreshold()
    ensures var r := New(seq(1200, _ => 'a'));
            && r.Node?
            && Remove(r, 0, 900).Leaf?
            && Remove(r, 0, 900).length == 300
  {
  }

  /** Out-of-range substring bounds are clamped; a negative substr start counts from the end. */
  lemma ForgivingBounds()
    ensures var r := New("0123456789");
            && Substring(r, -5, Some(3)) == Substring(r, 0, Some(3)) == Ok("012")
            && Substring(r, 4, Some(1000)) == Substring(r, 4, Some(10)) == Ok("456789")
            && Substr(r, -3, None) == Ok("789")
  {
    var r := New("0123456789");
    assert Flatten(r)[0..3] == "012";
    assert Flatten(r)[4..10] == "456789";
    assert Flatten(r)[7..] == "789";
  }
}
