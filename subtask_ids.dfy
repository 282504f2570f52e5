/**
 * The list of subtask ids an epic keeps. Adding appends; removing an id removes its
 * first occurrence only (List.remove(Object)), so an id appended twice survives one removal.
 */
module SubtaskIds {

  /** The position of the first occurrence of `x` (List.indexOf). */
  function IndexOf(s: seq<int>, x: int): (i: nat)
    requires x in s
    ensures i < |s| && s[i] == x && x !in s[..i]
  {
    if s[0] == x then 0
    else
      var j := IndexOf(s[1..], x);
      assert s[..j + 1] == [s[0]] + s[1..][..j];
      j + 1
  }

  /**
   * The list without the first occurrence of `x`, the other ids keeping their order;
   * unchanged when `x` is absent.
   */
  function RemoveFirst(s: seq<int>, x: int): (r: seq<int>)
    ensures x !in s ==> r == s
    ensures x in s ==>
      && |r| == |s| - 1
      && r[..IndexOf(s, x)] == s[..IndexOf(s, x)]
      && r[IndexOf(s, x)..] == s[IndexOf(s, x) + 1..]
    ensures multiset(r) == multiset(s) - multiset{x}
  {
    if x in s then
      var i := IndexOf(s, x);
      assert s == s[..i] + [x] + s[i + 1..];
      s[..i] + s[i + 1..]
    else s
  }

  /** Appending a fresh id and then removing it gives back the original list. */
  lemma RemoveFirstUndoesAppend(s: seq<int>, x: int)
    requires x !in s
    ensures RemoveFirst(s + [x], x) == s
  {
    FirstIndexPastPrefix(s, [x], x);
    assert (s + [x])[..|s|] == s;
  }

  /** An id appended twice is still listed once after one removal. */
  lemma RemoveFirstAfterDoubleAppend(s: seq<int>, x: int)
    requires x !in s
    ensures RemoveFirst(s + [x] + [x], x) == s + [x]
  {
    var t := s + [x] + [x];
    FirstIndexPastPrefix(s, [x, x], x);
    assert t == s + [x, x];
    assert t[..|s|] + t[|s| + 1..] == s + [x];
  }

  /** The first occurrence of `x` lies past a prefix that does not mention it. */
  lemma {:induction false} FirstIndexPastPrefix(p: seq<int>, t: seq<int>, x: int)
    requires x !in p && x in t
    ensures IndexOf(p + t, x) == |p| + IndexOf(t, x)
  {
    if p == [] {
      assert p + t == t;
    } else {
      assert (p + t)[0] == p[0] != x;
      assert (p + t)[1..] == p[1..] + t;
      FirstIndexPastPrefix(p[1..], t, x);
    }
  }
}
