/** Positional reordering of an ordered list: the pure specification of
    what `TodoList::move_todo`, `add_todo` and `delete` do to the sequence
    of items. Position is the only identity an item has. */
module Reorder {

  /** The sequence with the element at index `a` taken out. */
  function RemoveAt<T>(s: seq<T>, a: nat): (r: seq<T>)
    requires a < |s|
    ensures |r| == |s| - 1
    ensures forall k {:trigger r[k]} :: 0 <= k < |r| ==> r[k] == if k < a then s[k] else s[k + 1]
  {
    s[..a] + s[a + 1..]
  }

  /** The sequence with `x` placed at index `b`, later elements shifted up. */
  function InsertAt<T>(s: seq<T>, b: nat, x: T): (r: seq<T>)
    requires b <= |s|
    ensures |r| == |s| + 1 && r[b] == x
    ensures forall k {:trigger r[k]} :: 0 <= k < |r| && k != b ==> r[k] == if k < b then s[k] else s[k - 1]
  {
    s[..b] + [x] + s[b..]
  }

  /** The element at `a` relocated to `b`: "remove at a, insert at b". */
  function Moved<T>(s: seq<T>, a: nat, b: nat): (r: seq<T>)
    requires a < |s| && b < |s|
    ensures |r| == |s| && r[b] == s[a]
  {
    InsertAt(RemoveAt(s, a), b, s[a])
  }

  /** The index in the original sequence of the element found at `k` after
      moving `a` to `b`: the endpoints exchange roles and everything strictly
      between shifts by one toward `a`; everything outside stays put. */
  function Origin(a: nat, b: nat, k: nat): (i: nat)
    ensures k == b <==> i == a
  {
    if k == b then a
    else if a < b && a <= k < b then k + 1
    else if b < a && b < k <= a then k - 1
    else k
  }

  /** Every element after a move is the original element at its `Origin`. */
  lemma MovedAt<T>(s: seq<T>, a: nat, b: nat, k: nat)
    requires a < |s| && b < |s| && k < |s|
    ensures Origin(a, b, k) < |s| && Moved(s, a, b)[k] == s[Origin(a, b, k)]
  {
  }

  /** A sequence that agrees pointwise with `Origin` is the move. */
  lemma MovedExt<T>(s: seq<T>, a: nat, b: nat, t: seq<T>)
    requires a < |s| && b < |s| && |t| == |s|
    requires forall k :: 0 <= k < |s| ==> Origin(a, b, k) < |s| && t[k] == s[Origin(a, b, k)]
    ensures t == Moved(s, a, b)
  {
  }

  /** Moving an element onto its own index changes nothing. */
  lemma MovedSameIndex<T>(s: seq<T>, a: nat)
    requires a < |s|
    ensures Moved(s, a, a) == s
  {
  }

  /** A move never loses or duplicates an element. */
  lemma MovedIsPermutation<T>(s: seq<T>, a: nat, b: nat)
    requires a < |s| && b < |s|
    ensures multiset(Moved(s, a, b)) == multiset(s)
  {
    var r := RemoveAt(s, a);
    assert s == s[..a] + [s[a]] + s[a + 1..];
    assert multiset(r) + multiset{s[a]} == multiset(s);
    assert r == r[..b] + r[b..];
    assert multiset(Moved(s, a, b)) == multiset(r[..b]) + multiset{s[a]} + multiset(r[b..]);
  }

  /** Apart from the moved element, every element keeps its relative order:
      taking the moved element back out leaves what taking it out of the
      original left. */
  lemma MovedKeepsRelativeOrder<T>(s: seq<T>, a: nat, b: nat)
    requires a < |s| && b < |s|
    ensures RemoveAt(Moved(s, a, b), b) == RemoveAt(s, a)
  {
  }

  /** Moving back undoes a move, in both directions. */
  lemma MovedThenMovedBack<T>(s: seq<T>, a: nat, b: nat)
    requires a < |s| && b < |s|
    ensures Moved(Moved(s, a, b), b, a) == s
  {
  }

  /** Appending `x` and then moving it from the end to `p` is inserting it
      at `p`: the way `add_todo` places a new item. */
  lemma AppendThenMoved<T>(s: seq<T>, x: T, p: nat)
    requires p <= |s|
    ensures Moved(s + [x], |s|, p) == InsertAt(s, p, x)
  {
  }

  /** Moving the element at `p` to the end and dropping the last slot is
      removing it at `p`: the way `delete` removes an item. */
  lemma MovedToEndThenDropped<T>(s: seq<T>, p: nat)
    requires p < |s|
    ensures Moved(s, p, |s| - 1)[..|s| - 1] == RemoveAt(s, p)
  {
  }
}
