/**
  The upper-bound search the comparator of `LogLine` was written for: over a
  sequence of entries sorted by line number, find the first entry strictly after
  a queried line. The entry just before that position is the snapshot effective
  at the queried line.
 */
module LineSearch {
  import opened LogLines

  datatype Option<T> = None | Some(value: T)

  /** Entries in non-decreasing order of line number. */
  predicate SortedByLine(lines: seq<LogLine>)
  {
    forall i, j :: 0 <= i < j < |lines| ==> lines[i].GetLineN() <= lines[j].GetLineN()
  }

  /**
    The precondition of `std::upper_bound` with `Comparator`: the entries are
    partitioned so that, once the comparator accepts an entry, it accepts every
    later one.
   */
  predicate PartitionedBy(lines: seq<LogLine>, val: uint32)
  {
    forall i, j :: 0 <= i < j < |lines| && LogLine.Comparator(val, lines[i]) ==> LogLine.Comparator(val, lines[j])
  }

  /** A sequence sorted by line is partitioned for every queried value. */
  lemma SortedIsPartitioned(lines: seq<LogLine>, val: uint32)
    requires SortedByLine(lines)
    ensures PartitionedBy(lines, val)
  {
    forall i, j | 0 <= i < j < |lines| && LogLine.Comparator(val, lines[i])
      ensures LogLine.Comparator(val, lines[j])
    {
      ComparatorOrder(val, val, lines[i], lines[j]);
    }
  }

  /**
    Reference definition of the search: scan from the front and stop at the
    first entry the comparator accepts, or at the end.
   */
  function LinearUpperBound(lines: seq<LogLine>, val: uint32): (i: nat)
    ensures i <= |lines|
    ensures forall k :: 0 <= k < i ==> !LogLine.Comparator(val, lines[k])
    ensures i < |lines| ==> LogLine.Comparator(val, lines[i])
  {
    if lines == [] then 0
    else if LogLine.Comparator(val, lines[0]) then 0
    else 1 + LinearUpperBound(lines[1..], val)
  }

  /**
    On a sorted sequence the comparator partitions the entries: once it accepts
    an entry it accepts every later one, so the position of the linear scan
    splits the sequence into lines `<= val` and lines `> val`.
   */
  lemma SortedPartitioned(lines: seq<LogLine>, val: uint32)
    requires SortedByLine(lines)
    ensures forall k :: 0 <= k < LinearUpperBound(lines, val) ==> lines[k].GetLineN() <= val
    ensures forall k :: LinearUpperBound(lines, val) <= k < |lines| ==> lines[k].GetLineN() > val
  {
    var i := LinearUpperBound(lines, val);
    forall k | i <= k < |lines|
      ensures lines[k].GetLineN() > val
    {
      ComparatorOrder(val, val, lines[i], lines[k]);
    }
  }

  /** Any split point between `<= val` and `> val` is the one the linear scan finds. */
  lemma SplitIsLinearUpperBound(lines: seq<LogLine>, val: uint32, i: nat)
    requires i <= |lines|
    requires forall k :: 0 <= k < i ==> lines[k].GetLineN() <= val
    requires forall k :: i <= k < |lines| ==> lines[k].GetLineN() > val
    ensures LinearUpperBound(lines, val) == i
  {
    var j := LinearUpperBound(lines, val);
    if j < |lines| {
      assert LogLine.Comparator(val, lines[j]);
    }
    if i < |lines| {
      assert lines[i].GetLineN() > val;
    }
  }

  /**
    Binary upper-bound search in the shape of `std::upper_bound`: keep a window
    `[first, first + count)` that holds the answer and halve it at each step.
    Like `std::upper_bound` it needs the entries only partitioned by the
    comparator, not sorted.
   */
  method UpperBound(lines: seq<LogLine>, val: uint32) returns (i: nat)
    requires PartitionedBy(lines, val)
    ensures i <= |lines|
    ensures forall k :: 0 <= k < i ==> lines[k].GetLineN() <= val
    ensures forall k :: i <= k < |lines| ==> lines[k].GetLineN() > val
    ensures i == LinearUpperBound(lines, val)
  {
    var first: nat, count: nat := 0, |lines|;
    while count > 0
      invariant first + count <= |lines|
      invariant forall k :: 0 <= k < first ==> !LogLine.Comparator(val, lines[k])
      invariant forall k :: first + count <= k < |lines| ==> LogLine.Comparator(val, lines[k])
    {
      var step := count / 2;
      var mid := first + step;
      if !LogLine.Comparator(val, lines[mid]) {
        first := mid + 1;
        count := count - (step + 1);
      } else {
        count := step;
      }
    }
    i := first;
    SplitIsLinearUpperBound(lines, val, i);
  }

  /**
    The snapshot effective at line `val`: the entry just before the upper
    bound, or `None` when every entry is after `val` (including when there are
    no entries at all). The entry found is the last one at or before `val`.
   */
  function EffectiveEntry(lines: seq<LogLine>, val: uint32): (r: Option<LogLine>)
    requires SortedByLine(lines)
    ensures r.None? <==> forall k :: 0 <= k < |lines| ==> lines[k].GetLineN() > val
    ensures r.Some? ==>
      exists k :: 0 <= k < |lines| && r.value == lines[k]
        && lines[k].GetLineN() <= val
        && (k + 1 == |lines| || lines[k + 1].GetLineN() > val)
  {
    SortedPartitioned(lines, val);
    var i := LinearUpperBound(lines, val);
    if i == 0 then None else Some(lines[i - 1])
  }

  /**
    The per-node lookup as code: one binary search, then the entry before the
    position it returns.
   */
  method EffectiveSnapshot(lines: seq<LogLine>, val: uint32) returns (r: Option<LogLine>)
    requires SortedByLine(lines)
    ensures r == EffectiveEntry(lines, val)
  {
    SortedIsPartitioned(lines, val);
    var i := UpperBound(lines, val);
    if i == 0 {
      r := None;
    } else {
      r := Some(lines[i - 1]);
    }
  }

  /**
    With entries at lines 2, 5 and 9: no snapshot before line 2, the entry at
    line 2 for lines 2 to 4, the one at line 5 for lines 5 to 8, and the one at
    line 9 from line 9 on.
   */
  lemma EffectiveEntryExample(a: LogLine, b: LogLine, c: LogLine, val: uint32)
    requires a.GetLineN() == 2 && b.GetLineN() == 5 && c.GetLineN() == 9
    ensures SortedByLine([a, b, c])
    ensures val < 2 ==> EffectiveEntry([a, b, c], val) == None
    ensures 2 <= val < 5 ==> EffectiveEntry([a, b, c], val) == Some(a)
    ensures 5 <= val < 9 ==> EffectiveEntry([a, b, c], val) == Some(b)
    ensures 9 <= val ==> EffectiveEntry([a, b, c], val) == Some(c)
  {
    var lines := [a, b, c];
    var i := if val < 2 then 0 else if val < 5 then 1 else if val < 9 then 2 else 3;
    SplitIsLinearUpperBound(lines, val, i);
  }
}
