# LogLine: per-node adjacency snapshots and line-number search

A model of `LogLine` from the TDMH log visualizer (`src/logline.h`). A `LogLine` is one node's
snapshot of its outgoing links at a given line of a log. It holds the node id, the line number
and two bit masks: one for strong links and one for weak links. The two masks are sized
independently. Every field is `const` and set only by the constructor, so the model is an
immutable Dafny datatype:

- `logline.dfy`, module `LogLines`:
  - the entry `LogLine(nodeId, lineN, strongMask, weakMask)`;
  - its getters;
  - the total bit accessors, which answer `false` past the end of a mask;
  - the constructor (`New`) and the copy constructor (`Copy`);
  - the static `Comparator(val, a)`, which is `val < a.lineN`;
  - lemmas that say what these guarantee.
- `line_search.dfy`, module `LineSearch`:
  - the upper-bound search that the comparator exists for. `UpperBound` is a binary search in the
    shape of `std::upper_bound`, proved equal to the linear scan `LinearUpperBound`. It returns the
    first entry whose line is strictly after the queried line.
  - the thin per-node lookup built on top of it. `EffectiveEntry` is the specification and
    `EffectiveSnapshot` the code. It returns the entry just before that position, which is the
    snapshot in effect at the queried line, or `None`.

Types follow the header's C++ types:

- `unsigned int` becomes `uint32`. It is used for the node id, the line number and the comparator's
  value.
- `unsigned long` becomes `uint64`, assuming an LP64 target (64-bit Linux or macOS), where `unsigned long` is 64 bits wide. It is used for a bit index and a mask size.
- A mask is a `seq<bool>` whose length fits in a `uint64`.

The header declares the getters and the accessors, but their bodies are in `src/logline.cpp`,
which is not part of this model. Their behaviour is therefore taken from the header's doc comments:
"false if out of bounds", and the stored bit otherwise.

The plain getters `LogLine.GetNodeId` (`getNodeId`, src/logline.h:58-62), `LogLine.GetLineN`
(`getLineN`, src/logline.h:64-68), `LogLine.GetWeakSize` (`getWeakSize`, src/logline.h:84-88) and
`LogLine.GetStrongSize` (`getStrongSize`, src/logline.h:90-94) are each one field read. The static
`LogLine.Comparator` (`comparator`, src/logline.h:48-56) is defined as `val < a.lineN`. What these
guarantee is proved by `New` and `Copy` for the getters and by `ComparatorOrder` for the comparator.

## Model

| member | source | states |
|---|---|---|
| `LogLines.New` | src/logline.h:33-40 | Every getter of the new entry reports exactly what was passed in: `GetNodeId` (logline.h:58-62) the node id, `GetLineN` (logline.h:64-68) the line number, `GetStrongSize` and `GetWeakSize` (logline.h:84-94) the two mask lengths, and every in-range bit of both masks. |
| `LogLines.Copy` | src/logline.h:42-46 | The copy has the same node id, line number, strong and weak sizes, and the same answer at every bit index of both masks as the original. |
| `LogLines.SameObservationsIffEqual` | src/logline.h:42-46 | Two entries are equal exactly when every getter agrees on them (both directions), so a by-value copy cannot be told apart from its original. |
| `LogLines.CopyIsEqual` | src/logline.h:42-46 | The copy constructor yields a value equal to the entry it copies. |
| `LogLines.LogLine.GetStrongMask` | src/logline.h:70-75 | Total over every `unsigned long` index: `false` for every index at or past `getStrongSize()`, the stored strong bit below it. |
| `LogLines.LogLine.GetWeakMask` | src/logline.h:77-82 | Total over every `unsigned long` index: `false` for every index at or past `getWeakSize()`, the stored weak bit below it. |
| `LogLines.MasksIndependent` | src/logline.h:22-30 | Replacing one mask changes neither the size nor any bit reported for the other mask. |
| `LogLines.TrailingZerosInvisible` | src/logline.h:70-82 | Appending `false` bits to the strong mask changes no answer of `GetStrongMask`, and appending them to the weak mask changes no answer of `GetWeakMask`, so masks of different lengths compare as if zero-padded. |
| `LogLines.ComparatorOrder` | src/logline.h:48-56 | `LogLine.Comparator` (`comparator`, defined as `val < a.lineN`) is false for an entry's own line; once true for an entry it stays true for entries with later lines and for smaller values. |
| `LineSearch.SortedIsPartitioned` | src/logline.h:48-56 | A sequence sorted by line is partitioned by the comparator for every queried value, so it meets the precondition of the upper-bound search. |
| `LineSearch.LinearUpperBound` | src/logline.h:48-56 | The reference scan returns a position within the sequence. The comparator rejects every entry before that position and accepts the entry at it, if there is one. |
| `LineSearch.SortedPartitioned` | src/logline.h:48-56 | On a sequence sorted by line, every entry before the scan's position has line `<= val` and every entry from it on has line `> val`. |
| `LineSearch.SplitIsLinearUpperBound` | src/logline.h:48-56 | Any position that splits a sequence into lines `<= val` followed by lines `> val` is the position the linear scan returns. |
| `LineSearch.UpperBound` | src/logline.h:48-56 | The binary search needs, as `std::upper_bound` does, only a sequence partitioned by the comparator, not a sorted one. It returns `i` such that every entry before `i` has line `<= val` and every entry from `i` on has line `> val`. It also equals the linear scan. |
| `LineSearch.EffectiveEntry` | src/logline.h:48-56 | The lookup is absent exactly when every entry's line is `> val`, and so is absent on an empty sequence. Otherwise it is the entry at a position `k` with line `<= val`, where either no entry follows `k` or the next one has line `> val`. |
| `LineSearch.EffectiveSnapshot` | src/logline.h:48-56 | Code that does one upper-bound search and takes the entry before its position returns exactly the lookup specified by `EffectiveEntry`. |
| `LineSearch.EffectiveEntryExample` | src/logline.h:48-56 | With entries at lines 2, 5 and 9, there is no snapshot before line 2. Lines 2–4 give the line-2 entry, lines 5–8 the line-5 entry, and line 9 onward the line-9 entry. |

## Left out

- `src/logvisual.h` is not part of this model. It is a Qt text-editor widget covering line-number painting, resize and mouse events, and signals and slots. It is user-interface code over a library that is not modelled.
- `std::unique_ptr` ownership and move semantics of the masks are not modelled. The masks are value sequences inside an immutable datatype, so no sharing or aliasing can arise, and a copy is deep by construction.
- `src/logline.cpp`, which holds the getter and accessor bodies, is not part of this model. The accessors follow the header's doc comments.
- The parsing of raw log text into entries is not in the modelled files. Neither is graph rendering.
- No per-node store or map class appears in the modelled header, so none is modelled. That includes building per-node sequences and the query over all nodes at one line. The search and the lookup work on one sequence of entries, such as one node's snapshots.
- `EffectiveEntry` and `EffectiveSnapshot` require entries sorted in non-decreasing line order. This is the order in which the loader supplies one node's snapshots (strictly increasing lines are one case of it). It is not what `std::upper_bound` requires: `UpperBound` itself needs only the weaker partition precondition. Input that is not sorted is outside the lookup's contract.
