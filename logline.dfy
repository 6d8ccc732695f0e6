/**
  One node's snapshot of adjacency state at a given line of the log: the node id,
  the line number and two independently sized bit masks (strong links, weak links).
  Every field is set once, at construction, and never changes afterwards, so the
  entry is an immutable value.
 */
module LogLines {

  /** C++ `unsigned int`, the type of the node id and of line numbers. */
  type uint32 = x: int | 0 <= x < 0x1_0000_0000

  /** C++ `unsigned long`, the type of a bit index and of a mask size. */
  type uint64 = x: int | 0 <= x < 0x1_0000_0000_0000_0000

  /** A bit vector whose size fits the `unsigned long` the size getters return. */
  type Mask = s: seq<bool> | |s| < 0x1_0000_0000_0000_0000

  datatype LogLine = LogLine(nodeId: uint32, lineN: uint32, strongMask: Mask, weakMask: Mask)
  {
    /** Id of the node the masks refer to. */
    function GetNodeId(): uint32 { nodeId }

    /** Line number at which this snapshot becomes effective. */
    function GetLineN(): uint32 { lineN }

    /** Number of bits in the strong mask. */
    function GetStrongSize(): uint64 { |strongMask| }

    /** Number of bits in the weak mask. */
    function GetWeakSize(): uint64 { |weakMask| }

    /**
      Bit `x` of the strong mask; total over every index, `false` past the end.
     */
    function GetStrongMask(x: uint64): (b: bool)
      ensures x >= GetStrongSize() ==> !b
      ensures x < GetStrongSize() ==> b == strongMask[x]
    {
      x < |strongMask| && strongMask[x]
    }

    /**
      Bit `x` of the weak mask; total over every index, `false` past the end.
     */
    function GetWeakMask(x: uint64): (b: bool)
      ensures x >= GetWeakSize() ==> !b
      ensures x < GetWeakSize() ==> b == weakMask[x]
    {
      x < |weakMask| && weakMask[x]
    }

    /**
      The less-than used by the upper-bound search on line numbers: is the
      raw line number `val` strictly before the line of entry `a`?
     */
    static predicate Comparator(val: uint32, a: LogLine)
    {
      val < a.lineN
    }
  }

  /** Two entries that no getter can tell apart. */
  predicate SameObservations(a: LogLine, b: LogLine)
  {
    && a.GetNodeId() == b.GetNodeId()
    && a.GetLineN() == b.GetLineN()
    && a.GetStrongSize() == b.GetStrongSize()
    && a.GetWeakSize() == b.GetWeakSize()
    && (forall x: uint64 :: a.GetStrongMask(x) == b.GetStrongMask(x))
    && (forall x: uint64 :: a.GetWeakMask(x) == b.GetWeakMask(x))
  }

  /**
    Builds an entry from its four values. Every getter afterwards reports
    exactly what was passed in.
   */
  function New(nodeId: uint32, lineN: uint32, strongMask: Mask, weakMask: Mask): (r: LogLine)
    ensures r.GetNodeId() == nodeId && r.GetLineN() == lineN
    ensures r.GetStrongSize() == |strongMask| && r.GetWeakSize() == |weakMask|
    ensures forall x: uint64 :: x < |strongMask| ==> r.GetStrongMask(x) == strongMask[x]
    ensures forall x: uint64 :: x < |weakMask| ==> r.GetWeakMask(x) == weakMask[x]
  {
    LogLine(nodeId, lineN, strongMask, weakMask)
  }

  /**
    The copy constructor: copies both masks by value, so the copy reports the
    same id, line, sizes and bits as the original.
   */
  function Copy(oth: LogLine): (r: LogLine)
    ensures SameObservations(r, oth)
  {
    LogLine(oth.nodeId, oth.lineN, oth.strongMask, oth.weakMask)
  }

  /**
    The getters determine an entry completely: two entries are equal exactly
    when every getter agrees on them. In particular a copy is indistinguishable
    from, and equal to, the entry it was made from.
   */
  lemma SameObservationsIffEqual(a: LogLine, b: LogLine)
    ensures SameObservations(a, b) <==> a == b
  {
    if SameObservations(a, b) {
      forall i | 0 <= i < |a.strongMask|
        ensures a.strongMask[i] == b.strongMask[i]
      {
        assert a.GetStrongMask(i) == b.GetStrongMask(i);
      }
      forall i | 0 <= i < |a.weakMask|
        ensures a.weakMask[i] == b.weakMask[i]
      {
        assert a.GetWeakMask(i) == b.GetWeakMask(i);
      }
    }
  }

  /** A copy equals its original. */
  lemma CopyIsEqual(oth: LogLine)
    ensures Copy(oth) == oth
  {
    SameObservationsIffEqual(Copy(oth), oth);
  }

  /**
    The two masks are independent: replacing the weak mask leaves every strong
    getter unchanged, and replacing the strong mask leaves every weak getter
    unchanged.
   */
  lemma MasksIndependent(e: LogLine, strong: Mask, weak: Mask)
    ensures e.(weakMask := weak).GetStrongSize() == e.GetStrongSize()
    ensures forall x: uint64 :: e.(weakMask := weak).GetStrongMask(x) == e.GetStrongMask(x)
    ensures e.(strongMask := strong).GetWeakSize() == e.GetWeakSize()
    ensures forall x: uint64 :: e.(strongMask := strong).GetWeakMask(x) == e.GetWeakMask(x)
  {
  }

  /**
    A mask behaves as if followed by infinitely many zero bits: appending
    `false` bits to either mask changes no answer of that mask's getter.
    This is what lets masks of different generations be compared bit by bit.
   */
  lemma TrailingZerosInvisible(e: LogLine, k: nat)
    requires |e.strongMask| + k < 0x1_0000_0000_0000_0000
    requires |e.weakMask| + k < 0x1_0000_0000_0000_0000
    ensures forall x: uint64 ::
      e.(strongMask := e.strongMask + seq(k, _ => false)).GetStrongMask(x) == e.GetStrongMask(x)
    ensures forall x: uint64 ::
      e.(weakMask := e.weakMask + seq(k, _ => false)).GetWeakMask(x) == e.GetWeakMask(x)
  {
  }

  /**
    The order the comparator induces: no entry is strictly after its own line,
    the answer only becomes true for later entries, and only becomes false for
    larger values.
   */
  lemma ComparatorOrder(val: uint32, val': uint32, a: LogLine, b: LogLine)
    ensures !LogLine.Comparator(a.GetLineN(), a)
    ensures a.GetLineN() <= b.GetLineN() && LogLine.Comparator(val, a) ==> LogLine.Comparator(val, b)
    ensures val' <= val && LogLine.Comparator(val, a) ==> LogLine.Comparator(val', a)
  {
  }
}
