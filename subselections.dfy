/**
 * `generateSubselections`, identical in both generations of the engine: every
 * contiguous run of the space-separated parts of a text, longest first and, within
 * one length, leftmost first.
 */
module Generator {
  import opened Text

  /** Every slice of `parts` of length `size`, by increasing offset. */
  function Level<T>(parts: seq<T>, size: nat): (level: seq<seq<T>>)
    requires 1 <= size <= |parts|
    ensures |level| == |parts| - size + 1
  {
    seq(|parts| - size + 1, offset requires 0 <= offset <= |parts| - size => parts[offset..offset + size])
  }

  /** The levels of every length from |parts| down to size + 1, in that order. */
  function Above<T>(parts: seq<T>, size: nat): seq<seq<T>>
    requires size <= |parts|
    decreases |parts| - size
  {
    if size == |parts| then [] else Above(parts, size + 1) + Level(parts, size + 1)
  }

  /** The whole sequence the generator yields for `parts`. */
  function Subselections<T>(parts: seq<T>): seq<seq<T>> {
    Above(parts, 0)
  }

  /** 0 + 1 + ... + m. */
  function Triangle(m: nat): nat {
    if m == 0 then 0 else Triangle(m - 1) + m
  }

  /** The closed form of Triangle. */
  lemma {:induction false} TriangleClosedForm(m: nat)
    ensures 2 * Triangle(m) == m * (m + 1)
  {
    if m > 0 {
      TriangleClosedForm(m - 1);
      assert m * (m + 1) == (m - 1) * m + 2 * m;
    }
  }

  /** Triangle grows by more than m at step m + 1, and is monotonic. */
  lemma {:induction false} TriangleMonotonic(a: nat, b: nat)
    requires a < b
    ensures Triangle(a) + a < Triangle(b)
    decreases b
  {
    if a + 1 < b {
      TriangleMonotonic(a, b - 1);
    }
  }

  /** Position in the generator's output of the slice of length `size` at `offset`. */
  function Rank(n: nat, size: nat, offset: nat): nat
    requires 1 <= size <= n && offset <= n - size
  {
    Triangle(n - size) + offset
  }

  /** Positions order slices by decreasing length, then by increasing offset. */
  lemma RankOrder(n: nat, s1: nat, o1: nat, s2: nat, o2: nat)
    requires 1 <= s1 <= n && o1 <= n - s1
    requires 1 <= s2 <= n && o2 <= n - s2
    ensures Rank(n, s1, o1) < Rank(n, s2, o2) <==> s1 > s2 || (s1 == s2 && o1 < o2)
  {
    if s1 > s2 {
      TriangleMonotonic(n - s1, n - s2);
    } else if s2 > s1 {
      TriangleMonotonic(n - s2, n - s1);
    }
  }

  /** The number of slices yielded before length `size`. */
  lemma {:induction false} AboveLength<T>(parts: seq<T>, size: nat)
    requires size <= |parts|
    ensures |Above(parts, size)| == Triangle(|parts| - size)
    decreases |parts| - size
  {
    if size < |parts| {
      AboveLength(parts, size + 1);
    }
  }

  /** For n parts the generator yields exactly n(n+1)/2 slices. */
  lemma SubselectionsCount<T>(parts: seq<T>)
    ensures 2 * |Subselections(parts)| == |parts| * (|parts| + 1)
  {
    AboveLength(parts, 0);
    TriangleClosedForm(|parts|);
  }

  /** The slice of length `size` at `offset` sits at its rank, in every Above(parts, below). */
  lemma {:induction false} AboveAt<T>(parts: seq<T>, below: nat, size: nat, offset: nat)
    requires below < size <= |parts| && offset <= |parts| - size
    ensures Rank(|parts|, size, offset) < |Above(parts, below)|
    ensures Above(parts, below)[Rank(|parts|, size, offset)] == parts[offset..offset + size]
    decreases size - below
  {
    AboveLength(parts, below + 1);
    if below + 1 == size {
      assert Above(parts, below) == Above(parts, size) + Level(parts, size);
    } else {
      AboveAt(parts, below + 1, size, offset);
    }
  }

  /** Every slice of at least one part is yielded, at its rank. */
  lemma SubselectionAt<T>(parts: seq<T>, size: nat, offset: nat)
    requires 1 <= size <= |parts| && offset <= |parts| - size
    ensures Rank(|parts|, size, offset) < |Subselections(parts)|
    ensures Subselections(parts)[Rank(|parts|, size, offset)] == parts[offset..offset + size]
  {
    AboveAt(parts, 0, size, offset);
  }

  /** The first slice yielded for a non-empty list of parts is the whole list. */
  lemma FirstSubselectionIsWhole<T>(parts: seq<T>)
    requires |parts| >= 1
    ensures |Subselections(parts)| >= 1 && Subselections(parts)[0] == parts
  {
    SubselectionAt(parts, |parts|, 0);
    assert parts[0..|parts|] == parts;
  }

  /** Every yielded slice is a non-empty contiguous slice of `parts`, found at its rank. */
  lemma {:induction false} AboveShape<T>(parts: seq<T>, below: nat, k: nat)
    returns (size: nat, offset: nat)
    requires below <= |parts| && k < |Above(parts, below)|
    ensures below < size <= |parts| && offset <= |parts| - size
    ensures Rank(|parts|, size, offset) == k
    ensures Above(parts, below)[k] == parts[offset..offset + size]
    decreases |parts| - below
  {
    AboveLength(parts, below + 1);
    var upper := Above(parts, below + 1);
    if k < |upper| {
      size, offset := AboveShape(parts, below + 1, k);
    } else {
      size, offset := below + 1, k - |upper|;
    }
  }

  /** Each yielded element is the slice of some length ≥ 1 at some offset, at its rank. */
  lemma SubselectionShape<T>(parts: seq<T>, k: nat) returns (size: nat, offset: nat)
    requires k < |Subselections(parts)|
    ensures 1 <= size <= |parts| && offset <= |parts| - size
    ensures Rank(|parts|, size, offset) == k
    ensures Subselections(parts)[k] == parts[offset..offset + size]
  {
    size, offset := AboveShape(parts, 0, k);
  }

  /**
   * `generateSubselections(text)`: split on single spaces, then for every size from
   * the number of parts down to 1 and every offset from 0 to parts - size, the slice.
   */
  method GenerateSubselections(text: string) returns (candidates: seq<seq<string>>)
    ensures candidates == Subselections(Split(text, ' '))
  {
    var parts := Split(text, ' ');
    candidates := [];
    var size := |parts|;
    while size > 0
      invariant 0 <= size <= |parts|
      invariant candidates == Above(parts, size)
    {
      var offset := 0;
      while offset <= |parts| - size
        invariant 0 <= offset <= |parts| - size + 1
        invariant candidates == Above(parts, size) + Level(parts, size)[..offset]
      {
        assert Level(parts, size)[..offset + 1] == Level(parts, size)[..offset] + [parts[offset..size + offset]];
        candidates := candidates + [parts[offset..size + offset]];
        offset := offset + 1;
      }
      assert Level(parts, size)[..offset] == Level(parts, size);
      size := size - 1;
    }
  }
}
