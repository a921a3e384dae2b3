/** The drag-and-drop move of the row list: `Array.prototype.splice` as the drag
    handler uses it, an index-map reference definition of the move, and the
    properties that connect the two. Generic in the element type, so that the
    same move can be stated of the in-memory rows and of the persisted records. */
module Reordering {

  import opened Wrappers

  /** The index at which `splice(start, …)` acts on an array of length `len`:
      a negative start counts back from the end, and both ends are clamped. */
  function SpliceStart(start: int, len: nat): (r: nat)
    ensures r <= len
    ensures 0 <= start <= len ==> r == start
    ensures start > len ==> r == len
    ensures start < 0 && 0 <= len + start ==> r == len + start
    ensures len + start < 0 ==> r == 0
  {
    if start < 0 then (if len + start < 0 then 0 else len + start)
    else if start > len then len
    else start
  }

  /** `s.splice(i, 1)` for an index inside `s`: the list without its element at `i`. */
  function RemoveAt<T>(s: seq<T>, i: nat): (r: seq<T>)
    requires i < |s|
    ensures |r| == |s| - 1
    ensures forall k :: 0 <= k < i ==> r[k] == s[k]
    ensures forall k :: i <= k < |r| ==> r[k] == s[k + 1]
  {
    s[..i] + s[i + 1..]
  }

  /** `s.splice(i, 0, x)` for a clamped index: `x` inserted before position `i`. */
  function InsertAt<T>(s: seq<T>, i: nat, x: T): (r: seq<T>)
    requires i <= |s|
    ensures |r| == |s| + 1
    ensures r[i] == x
    ensures forall k :: 0 <= k < i ==> r[k] == s[k]
    ensures forall k :: i < k < |r| ==> r[k] == s[k - 1]
  {
    s[..i] + [x] + s[i..]
  }

  /** The position in the input of the element that a move from `src` to `dst`
      leaves at position `k`. */
  function Origin(src: nat, dst: nat, k: nat): nat
  {
    if k == dst then src
    else if src < dst && src <= k < dst then k + 1
    else if dst < src && dst < k <= src then k - 1
    else k
  }

  lemma OriginInRange(n: nat, src: nat, dst: nat, k: nat)
    requires src < n && dst < n && k < n
    ensures Origin(src, dst, k) < n
  {
  }

  /** Reference definition of the move: every position draws its element from
      its origin. */
  function Moved<T>(s: seq<T>, src: nat, dst: nat): (r: seq<T>)
    requires src < |s| && dst < |s|
    ensures |r| == |s|
    ensures r[dst] == s[src]
  {
    seq(|s|, k requires 0 <= k < |s| => OriginInRange(|s|, src, dst, k); s[Origin(src, dst, k)])
  }

  /** Removing at `src` and re-inserting at `dst` (the two splices) is the move. */
  lemma MovedBySplices<T>(s: seq<T>, src: nat, dst: nat)
    requires src < |s| && dst < |s|
    ensures InsertAt(RemoveAt(s, src), dst, s[src]) == Moved(s, src, dst)
  {
  }

  /** The move is a permutation: nothing is lost and nothing duplicated. */
  lemma MovedIsPermutation<T>(s: seq<T>, src: nat, dst: nat)
    requires src < |s| && dst < |s|
    ensures multiset(Moved(s, src, dst)) == multiset(s)
  {
    MovedBySplices(s, src, dst);
    var rest := RemoveAt(s, src);
    assert s == s[..src] + [s[src]] + s[src + 1..];
    assert multiset(s) == multiset(rest) + multiset{s[src]};
    assert rest == rest[..dst] + rest[dst..];
    assert InsertAt(rest, dst, s[src]) == rest[..dst] + [s[src]] + rest[dst..];
    assert multiset(InsertAt(rest, dst, s[src])) == multiset(rest) + multiset{s[src]};
  }

  /** Every element but the moved one keeps its relative order: taking the moved
      element out of the result gives the input with the moved element taken out. */
  lemma MovedKeepsRelativeOrder<T>(s: seq<T>, src: nat, dst: nat)
    requires src < |s| && dst < |s|
    ensures RemoveAt(Moved(s, src, dst), dst) == RemoveAt(s, src)
  {
  }

  /** Dragging the moved element back to where it came from restores the list. */
  lemma MovedUndo<T>(s: seq<T>, src: nat, dst: nat)
    requires src < |s| && dst < |s|
    ensures Moved(Moved(s, src, dst), dst, src) == s
  {
  }

  /** The drag handler on the list it is given: with no destination the list is
      left as it is; otherwise the element at the splice position of `src` is
      taken out and put back at the splice position of `dst`, everything else
      keeping its order. A source index at or past the end would make the first
      splice remove nothing, so the drag library never hands one over. */
  function Reorder<T>(s: seq<T>, src: int, dst: Option<int>): (r: seq<T>)
    requires dst.Some? ==> 0 < |s| && src < |s|
    ensures dst.None? ==> r == s
    ensures dst.Some? ==>
      var from, to := SpliceStart(src, |s|), SpliceStart(dst.value, |s| - 1);
      && from < |s|
      && |r| == |s|
      && r[to] == s[from]
      && RemoveAt(r, to) == RemoveAt(s, from)
      && multiset(r) == multiset(s)
  {
    match dst
    case None => s
    case Some(dstIndex) =>
      var from, to := SpliceStart(src, |s|), SpliceStart(dstIndex, |s| - 1);
      MovedKeepsRelativeOrder(s, from, to);
      MovedIsPermutation(s, from, to);
      Moved(s, from, to)
  }
}
