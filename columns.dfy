/**
 * The two-column page layout shared by the JavaScript report builder and
 * the Python script: the first ceil(n/2) rows go to the left column, the
 * rest to the right column, and the right column is padded with blank rows
 * until both columns have the same length.
 */
module Columns {

  /** One printed line: a left entry and an unrelated right entry. */
  datatype Pair<T> = Pair(left: T, right: T)

  /** `Math.ceil(n / 2)` (JavaScript) and `math.ceil(n / 2)` (Python) for a count `n`. */
  function CeilHalf(n: nat): nat {
    (n + 1) / 2
  }

  /**
   * `rows` is the two-column layout of `items`: one line per left entry,
   * the left entries are the first half of `items`, the right entries the
   * rest of `items` followed by `blank` padding.
   */
  ghost predicate IsSplitOf<T>(rows: seq<Pair<T>>, items: seq<T>, blank: T) {
    && |rows| == CeilHalf(|items|)
    && (forall i :: 0 <= i < |rows| ==> rows[i].left == items[i])
    && (forall i :: 0 <= i < |rows| ==>
          rows[i].right == if |rows| + i < |items| then items[|rows| + i] else blank)
  }

  /**
   * Slices `items` at the midpoint, pads the right slice with `blank` in a
   * loop until it is as long as the left slice, and zips the two.
   */
  method Split<T>(items: seq<T>, blank: T) returns (rows: seq<Pair<T>>)
    ensures IsSplitOf(rows, items, blank)
  {
    var mid := CeilHalf(|items|);
    var left := items[..mid];
    var right := items[mid..];
    while |right| < |left|
      invariant |items| - mid <= |right| <= |left|
      invariant forall k :: 0 <= k < |right| ==>
                  right[k] == if mid + k < |items| then items[mid + k] else blank
    {
      right := right + [blank];
    }
    rows := seq(|left|, i requires 0 <= i < |left| => Pair(left[i], right[i]));
  }

  /** The entries of a layout read column by column: the left column, then the right one. */
  function Unsplit<T>(rows: seq<Pair<T>>): (items: seq<T>)
    ensures |items| == 2 * |rows|
  {
    Lefts(rows) + Rights(rows)
  }

  /** The left column, top to bottom. */
  function Lefts<T>(rows: seq<Pair<T>>): (items: seq<T>)
    ensures |items| == |rows|
    ensures forall i :: 0 <= i < |rows| ==> items[i] == rows[i].left
  {
    seq(|rows|, i requires 0 <= i < |rows| => rows[i].left)
  }

  /** The right column, top to bottom. */
  function Rights<T>(rows: seq<Pair<T>>): (items: seq<T>)
    ensures |items| == |rows|
    ensures forall i :: 0 <= i < |rows| ==> items[i] == rows[i].right
  {
    seq(|rows|, i requires 0 <= i < |rows| => rows[i].right)
  }

  /**
   * Reading the layout back column by column gives the original entries in
   * their original order, followed by nothing but padding (at most one blank).
   */
  lemma SplitRoundTrip<T>(rows: seq<Pair<T>>, items: seq<T>, blank: T)
    requires IsSplitOf(rows, items, blank)
    ensures |items| <= |Unsplit(rows)| <= |items| + 1
    ensures Unsplit(rows)[..|items|] == items
    ensures forall k :: |items| <= k < |Unsplit(rows)| ==> Unsplit(rows)[k] == blank
  {
    var flat := Unsplit(rows);
    var n := |rows|;
    forall k | 0 <= k < |items|
      ensures flat[k] == items[k]
    {
      if k >= n {
        assert flat[k] == Rights(rows)[k - n];
      }
    }
    assert flat[..|items|] == items;
    forall k | |items| <= k < |flat|
      ensures flat[k] == blank
    {
      if k >= n {
        assert flat[k] == Rights(rows)[k - n];
      }
    }
  }

  /** The entries of a layout in the order the page is walked: line by line, left then right. */
  function Entries<T>(rows: seq<Pair<T>>): (entries: seq<T>)
    ensures |entries| == 2 * |rows|
  {
    if rows == [] then [] else Entries(rows[..|rows| - 1]) + Sides(rows[|rows| - 1])
  }

  /** `['left', 'right']` applied to one line. */
  function Sides<T>(line: Pair<T>): seq<T> {
    [line.left, line.right]
  }
}
