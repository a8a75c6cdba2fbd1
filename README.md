# Redis sorted-set skip list and SDS bookkeeping, in Dafny

This project models the core of a Java study of Redis data structures.

- **The sorted-set skip list**, which the repository writes twice:
  - `zskip/SkipList.java` holds generic values and breaks ties on score with `ComparatorUtil.comparator`.
  - `skip/SkipList.java` holds `Integer` values and orders by score only.

  Both transcribe Redis's `zslInsert`:
  1. A descent from the top level fills `update[]` and `rank[]`.
  2. A drawn height may raise `level`.
  3. The new node is spliced into every level it reaches, with the spans split.
  4. The untouched levels gain one span.
  5. `backward`, `tail` and `length` follow.

  The model also covers `zslCreate`/`createZslList`, `randomLevel`, node creation and `doesItExist`.
- **The three-way comparator** `ComparatorUtil.comparator`, over null, boxed numbers, character sequences and other classes.
- **The header bookkeeping of the dynamic string `SDS`:**
  - header type and header size;
  - the bytes requested for a new string;
  - the grow-or-keep decision and the new capacity of `sdsMarkRoomFor`;
  - `sdsClear`, `sdsCatLen` and `sdsCatSds`, `sdsLen` and `sdsAvail`.

## How it is modelled

Both skip lists are one class, `SkipLists.SkipList`. It stores an arena `nodes: seq<Node>`.

- Index 0 is the header, and a link is an arena index or `NIL` (-1, Java's `null`).
- A ghost sequence `order` lists the stored nodes in level-0 order.
- The flag `tieBreak` selects the generic list's `(score, value)` order or the `Integer` list's score-only order.
- The invariant `SkipSpec.WellFormed` says:
  - every level entry in use is canonical: its forward names the next node tall enough, and its span is the level-0 distance to it, or to the end of the list when there is none;
  - the header's unused levels are empty;
  - `backward` names the level-0 predecessor;
  - `tail` is the last node;
  - level 0 is ordered by key;
  - `level` stays within 1..64.

The insertion is imperative and follows the Java loops one for one:
- the descent is `FindUpdate` and `ScanLevel`;
- the raise is `RaiseHeader`;
- the splice and untouched-level loops are `SpliceNew` and `Widen`;
- the backward links are `LinkBackward`.

Each method is proved against predicates that state the list after the step. The lemmas in `SkipLemmas` show that the result is again well formed. `SkipWalk` states what a reader of the list sees when following forward links.

`SDS` is a class `SdsStrings.Sds` holding `len`, `free`, a byte array `buf` and the header type. Its methods keep the header equal to pure functions on a `Header` value, and the properties are proved about those functions.

`ComparatorUtil` reads boxed numbers through `doubleValue`, modelled as rounding an integer to the nearest `double` (`ToDouble`). It compares character sequences by UTF-16 code unit (`CodeUnit`), as `String.compareTo` does.

## Model

| member | source | states |
|---|---|---|
| ComparatorUtil.Comparator | src/main/java/org/redis/utils/ComparatorUtil.java:18-46 | throws exactly when both arguments are non-null and either their classes differ (`IllegalArgumentException`) or the class is neither numeric nor a character sequence (`UnsupportedOperationException`); for two numbers of one class returns 0 exactly when their `double` values are equal, and otherwise returns 0 exactly for equal values (nulls, or equal character sequences of one class) |
| ComparatorUtil.SpacingIsGap | src/main/java/org/redis/utils/ComparatorUtil.java:36 | `Spacing(n)`, the gap between neighbouring `double`s around `n`, is exactly the power of two `p` with `n < 2^53 * p` that is 1 or has `2^53 * p <= 2 * n` (both directions) |
| ComparatorUtil.FloorIsMultiple | src/main/java/org/redis/utils/ComparatorUtil.java:36 | `Floor(n)` is exactly the multiple of `Spacing(n)` that lies at or below `n` and within one spacing of it (both directions) |
| ComparatorUtil.RoundNatNearest | src/main/java/org/redis/utils/ComparatorUtil.java:36 | `RoundNat(n)`, `doubleValue` of a non-negative integer, is `Floor(n)` or `Floor(n) + Spacing(n)`: the nearer one, and on a tie the one that is an even multiple of the spacing |
| ComparatorUtil.RoundExact | src/main/java/org/redis/utils/ComparatorUtil.java:36 | rounding leaves every integer from 0 to 2^53 unchanged |
| ComparatorUtil.RoundNatMonotone | src/main/java/org/redis/utils/ComparatorUtil.java:36 | rounding never reverses the order of two non-negative integers |
| ComparatorUtil.ToDoubleMonotone | src/main/java/org/redis/utils/ComparatorUtil.java:36 | `ToDouble`, `doubleValue` of any integral value, is monotone: `x <= y` gives `ToDouble(x) <= ToDouble(y)` |
| ComparatorUtil.LongsRoundTogether | src/main/java/org/redis/utils/ComparatorUtil.java:35-37 | the two `Long`s 2^53 and 2^53 + 1 compare equal, because both become the `double` 2^53 |
| ComparatorUtil.NumCompare | src/main/java/org/redis/utils/ComparatorUtil.java:35-37 | `Double.compare` on two integral `double` values: -1, 0 or 1, with negative exactly when `x < y` and zero exactly when equal |
| ComparatorUtil.StrCompareZero | src/main/java/org/redis/utils/ComparatorUtil.java:40-42 | `StrCompare`, the model of `compareTo`, is 0 exactly for equal strings |
| ComparatorUtil.StrCompareAntisymmetric | src/main/java/org/redis/utils/ComparatorUtil.java:40-42 | swapping the strings negates `compareTo` |
| ComparatorUtil.StrCompareTransitive | src/main/java/org/redis/utils/ComparatorUtil.java:40-42 | `compareTo <= 0` is transitive |
| ComparatorUtil.StrCompareIsLex | src/main/java/org/redis/utils/ComparatorUtil.java:41 | `StrCompare`, the model of `compareTo`, is negative exactly when the first string is lexicographically smaller (an independent definition) |
| ComparatorUtil.ComparatorAntisymmetric | src/main/java/org/redis/utils/ComparatorUtil.java:18-46 | swapping the arguments keeps an exception and flips the sign of a result |
| ComparatorUtil.ComparatorTransitive | src/main/java/org/redis/utils/ComparatorUtil.java:18-46 | "not after" is transitive, and strictly so when either step is strict |
| ComparatorUtil.ComparatorOrder | src/main/java/org/redis/utils/ComparatorUtil.java:20-42 | null comes before any other value; numbers compare by their `double` values, which is by value when both are within 2^53, and a smaller number never comes after a larger one; character sequences compare lexicographically by UTF-16 code unit |
| SkipNode.NewNode | src/main/java/org/redis/lang/basis/zskip/SkipNode.java:45-48 | `SkipNode(score, value)` stores exactly that score and value, with no backward link and no levels |
| SkipNode.CreateNode | src/main/java/org/redis/lang/basis/zskip/SkipList.java:62-69 | `zslCreateNode` gives the score, the value and exactly `level` entries, each unlinked with span 0 |
| SkipSpec.KeyLeTransitive | src/main/java/org/redis/lang/basis/zskip/SkipList.java:122-126 | the key order (score, then comparator on value when ties are broken) is transitive |
| SkipSpec.PrecedesOrder | src/main/java/org/redis/lang/basis/zskip/SkipList.java:122-126 | `Precedes`, the descent's test (a lower score, or an equal score and a comparator result below 0), places a node that goes ahead before the new key in the key order, and the new key before a node that does not |
| SkipSpec.ScoreOnlyPrecedes | src/main/java/org/redis/lang/basis/skip/SkipList.java:222-225 | `Precedes` without the tie clause (the source's tie test compares `score < score`, always false) never throws, and a node goes ahead exactly when its score is lower than the new key's |
| SkipLists.DrawnLevel | src/main/java/org/redis/lang/basis/zskip/SkipList.java:47-57 | the drawn height lies in 1..64 |
| SkipLists.RandomLevel | src/main/java/org/redis/lang/basis/skip/SkipList.java:52-64 | the loop returns one plus the number of leading samples below 0.25, capped at 64, so a value in 1..64 |
| SkipLists.CreateHeader | src/main/java/org/redis/lang/basis/skip/SkipList.java:92-102 | starting from a node without levels, the header gains 64 entries, each with a null forward and span 0, and has a null backward |
| SkipLists.SkipList.ZslCreate | src/main/java/org/redis/lang/basis/zskip/SkipList.java:77-97 | a new generic list: level 1, length 0, tail null, only the header, and the header's 64 entries empty; the list is well formed |
| SkipLists.SkipList.CreateZslList | src/main/java/org/redis/lang/basis/skip/SkipList.java:85-106 | the same for the `Integer` list |
| SkipLists.ScanLevel | src/main/java/org/redis/lang/basis/skip/SkipList.java:221-231 | one level of the descent stops at the last node whose successor does not precede the new key; the spans crossed add up to the positions moved; a comparator exception is reported as thrown on a stored node |
| SkipLists.FindUpdate | src/main/java/org/redis/lang/basis/zskip/SkipList.java:119-133 | after the descent `update[i]` is the node at position `rank[i]`, the last on level `i` before the insertion point; `rank[0]` is that point; the node before it precedes the new key and the node after it does not |
| SkipLists.RaiseHeader | src/main/java/org/redis/lang/basis/zskip/SkipList.java:136-144 | the new levels start at the header with rank 0, and the header's entry there spans the whole list |
| SkipLists.Splice | src/main/java/org/redis/lang/basis/zskip/SkipList.java:147-158 | after both loops every level entry is the old one edited by the span rule, and the new node's fields are those it was created with |
| SkipLists.SpliceNew | src/main/java/org/redis/lang/basis/zskip/SkipList.java:148-153 | below the new node's height, the new node takes over `update[i]`'s forward with span `old span - (rank[0] - rank[i])`, and `update[i]` points at it with span `rank[0] - rank[i] + 1` |
| SkipLists.Widen | src/main/java/org/redis/lang/basis/zskip/SkipList.java:156-158 | on each higher level in use, `update[i]`'s span grows by one |
| SkipLists.LinkBackward | src/main/java/org/redis/lang/basis/zskip/SkipList.java:160-166 | the new node's backward is `update[0]`, or null for the header; its level-0 successor's backward becomes the new node; `atEnd` holds exactly when there is no successor |
| SkipLists.Link | src/main/java/org/redis/lang/basis/zskip/SkipList.java:136-169 | after the descent, the relinking leaves a well-formed list with the new pair added at the insertion point |
| SkipLists.Insert | src/main/java/org/redis/lang/basis/skip/SkipList.java:209-278 | `add`/`insert` on the list's state: either a comparator exception on a stored node with nothing changed, or a well-formed list with the new pair added at an index `r` where the node before precedes the new pair and the node after does not |
| SkipLists.SkipList.InsertNode | src/main/java/org/redis/lang/basis/zskip/SkipList.java:108-172 | the list stays well formed. On success: `length` grows by one; the new node sits at an index `r` in level-0 order where the old node before it precedes the new pair and the old node after it does not; no other node's score, value or height changes; `level` becomes max(old level, drawn height). The `Integer` list never fails. A comparator exception leaves the list unchanged |
| SkipLists.Lookup | src/main/java/org/redis/lang/basis/skip/SkipList.java:169-197 | the search answers true exactly when a stored node has the score |
| SkipLists.SkipList.DoesItExist | src/main/java/org/redis/lang/basis/skip/SkipList.java:155-168 | true exactly when some stored node (never the header) has the score |
| SkipLemmas.ShapeAfterInsert | src/main/java/org/redis/lang/basis/zskip/SkipList.java:136-147 | after insertion the header keeps 64 levels; every node's height is within the new `level`, which is max(old level, height) and at most 64; `order` lists each node once |
| SkipLemmas.LinksAfterInsert | src/main/java/org/redis/lang/basis/zskip/SkipList.java:147-158 | the span rule and the untouched-level increment leave every entry in use canonical: it points to the next node tall enough, at the level-0 distance to it |
| SkipLemmas.SortedAfterInsert | src/main/java/org/redis/lang/basis/zskip/SkipList.java:122-133 | inserting at the descent's index keeps level 0 ordered by key |
| SkipLemmas.BackwardAfterInsert | src/main/java/org/redis/lang/basis/zskip/SkipList.java:160-166 | after the backward fix-up every node's backward is its level-0 predecessor, null for the first |
| SkipLemmas.InsertWellFormed | src/main/java/org/redis/lang/basis/zskip/SkipList.java:108-172 | insertion preserves the whole invariant, with the tail moving to the new node exactly when it goes last |
| SkipLemmas.InsertAdded | src/main/java/org/redis/lang/basis/zskip/SkipList.java:147-169 | the list after insertion is the old one with the new node spliced into `order` at the descent's index, and the new node has the given score, value and height |
| SkipLemmas.AddedKeys | src/main/java/org/redis/lang/basis/zskip/SkipList.java:147-169 | the stored (score, value) pairs after insertion are the old ones with exactly the new pair inserted at the descent's index |
| SkipLemmas.ScoreOrderNeverThrows | src/main/java/org/redis/lang/basis/skip/SkipList.java:222-225 | in score-only order (the tie clause that is always false) the descent's test throws on no stored node, by `ScoreOnlyPrecedes` node by node |
| SkipLemmas.ScoreAtStop | src/main/java/org/redis/lang/basis/skip/SkipList.java:155-168 | where a score-order descent stops, some stored node has the score exactly when the next node has it |
| SkipLemmas.LookupStop | src/main/java/org/redis/lang/basis/skip/SkipList.java:169-197 | the level-0 successor of the descent's last node has the score exactly when some stored node has it |
| SkipWalk.SpansAddUp | src/main/java/org/redis/lang/basis/zskip/SkipNode.java:29 | the spans along any level, from any node to the end, add up to the number of nodes after it; from the header, to `length` |
| SkipWalk.LevelZeroIsOrder | src/main/java/org/redis/lang/basis/zskip/SkipList.java:148-150 | following level-0 forward links from the header meets every stored node once, in list order |
| SkipWalk.ChainSorted | src/main/java/org/redis/lang/basis/zskip/SkipList.java:122-126 | every level, walked by its forward links, is ordered by score and then by the comparator on value |
| SkipWalk.ChainEnds | src/main/java/org/redis/lang/basis/zskip/SkipNode.java:26 | the last node met on a level has a null forward there |
| SkipWalk.TailEnds | src/main/java/org/redis/lang/basis/zskip/SkipList.java:162-166 | in a non-empty list the tail is a real node whose every level entry is null with span 0 |
| SdsStrings.SdsReqType | src/main/java/org/redis/lang/basis/SDS.java:77-80 | lengths above 5 get `SDS_TYPE_8` ('c'), all others `SDS_TYPE_5` ('e') |
| SdsStrings.SdsHdrSize | src/main/java/org/redis/lang/basis/SDS.java:82-90 | 2 bytes for `SDS_TYPE_5`, 1 for `SDS_TYPE_8`, and the default 4 for every other type |
| SdsStrings.ReqTypeHeaderSize | src/main/java/org/redis/lang/basis/SDS.java:82-90 | a requested type never falls back to the default header size |
| SdsStrings.NewType | src/main/java/org/redis/lang/basis/SDS.java:47-52 | an empty string is promoted to `SDS_TYPE_8`; the 5-bit type is kept exactly for lengths up to 5 other than 0 |
| SdsStrings.NewLenBytes | src/main/java/org/redis/lang/basis/SDS.java:54-59 | `hdrLen + initLen + 1` is `initLen + 3` exactly for the 5-bit type and `initLen + 2` otherwise |
| SdsStrings.GrowTarget | src/main/java/org/redis/lang/basis/SDS.java:180-189 | the new capacity is twice `len + addLen` on both sides of `SDS_MAX_PREALLOC` |
| SdsStrings.RoomType | src/main/java/org/redis/lang/basis/SDS.java:194-195 | after growth the type is always `SDS_TYPE_8`, never `SDS_TYPE_5` |
| SdsStrings.RoomBytes | src/main/java/org/redis/lang/basis/SDS.java:194-210 | the bytes requested on growth, `hdrLen + newLen + 1`, are always `2 * (len + addLen) + 2`: the header is one byte |
| SdsStrings.NewHeader | src/main/java/org/redis/lang/basis/SDS.java:42-74 | a new string's header fits its buffer, with length `initLen` and nothing free |
| SdsStrings.ClearedFits | src/main/java/org/redis/lang/basis/SDS.java:109-124 | `Cleared`, the header after `sdsClear`: clearing sets the length to 0 and adds the bytes that were in use to `free`, keeping the capacity and the type; the header still fits |
| SdsStrings.ClearedReuses | src/main/java/org/redis/lang/basis/SDS.java:109-118 | after clearing, appending up to the old length plus the old free bytes keeps the buffer (no growth), as the comment on `sdsClear` promises |
| SdsStrings.ClearedAsWrittenRegrows | src/main/java/org/redis/lang/basis/SDS.java:116-118 | with `free` left as written, clearing a new 3-byte string and appending 1 byte grows it into a 2-byte buffer; the corrected clear keeps the 3-byte one |
| SdsStrings.MarkRoomMakesRoom | src/main/java/org/redis/lang/basis/SDS.java:170-221 | `MarkRoom`, the header after `sdsMakeRoomFor` with `free` corrected: afterwards at least `addLen` bytes are free and the length is unchanged. Nothing changes when enough was free; otherwise the capacity is `2 * (len + addLen)` and the type `SDS_TYPE_8` |
| SdsStrings.CatHeaderFits | src/main/java/org/redis/lang/basis/SDS.java:144-159 | `CatHeader`, the header after `sdsCatLen` with `free` lowered: appending `n` bytes adds `n` to the length and keeps the header consistent with the buffer |
| SdsStrings.MarkRoomAsWrittenOverstates | src/main/java/org/redis/lang/basis/SDS.java:219 | as written, growing a 3-byte string by one byte records 8 free bytes in an 8-byte buffer |
| SdsStrings.CatAsWrittenOverruns | src/main/java/org/redis/lang/basis/SDS.java:156-157 | as written, after an append `free` still counts the bytes just used, and a second append that passes the room test ends 2 bytes past the buffer |
| SdsStrings.Sds.NewLen | src/main/java/org/redis/lang/basis/SDS.java:42-74 | holds the first `initLen` bytes of `init` followed by a zero terminator, with the header of `NewHeader` |
| SdsStrings.Sds.Len | src/main/java/org/redis/lang/basis/SDS.java:249-251 | the length is the number of bytes in the string |
| SdsStrings.Sds.Avail | src/main/java/org/redis/lang/basis/SDS.java:243-245 | the free count fits after the content together with the terminator |
| SdsStrings.Sds.Clear | src/main/java/org/redis/lang/basis/SDS.java:109-124 | the header becomes `Cleared` of the old one: `len` becomes 0 and its bytes are added to `free`; `buf[0]` becomes 0, the rest of `buf` and the buffer itself are kept |
| SdsStrings.Sds.MarkRoomFor | src/main/java/org/redis/lang/basis/SDS.java:170-221 | the header becomes `MarkRoom` of the old one; the content is kept and at least `addLen` bytes are free; nothing changes when enough was free |
| SdsStrings.Sds.CatLen | src/main/java/org/redis/lang/basis/SDS.java:144-159 | the content becomes the old content followed by the first `n` bytes of `t`, with a zero terminator after it; the header becomes `CatHeader` of the old one |
| SdsStrings.Sds.CatSds | src/main/java/org/redis/lang/basis/SDS.java:140-142 | appends the whole content of another string, or of itself; the header becomes `CatHeader` of the old one for the other string's length |

## Left out

- Random level generation: `java.util.Random` is not modelled. The insertion takes the drawn height as a parameter in 1..64. `RandomLevel` models the loop over a given sequence of samples, not their distribution.
- IEEE doubles: scores are integers, so NaN, the `assert` against NaN at `skip/SkipList.java:215` and the `Double.MIN_VALUE` score of the constructors' header are not modelled. The header built by `zslCreate`/`createZslList` has score 0 and a null value.
- Comparator values: only integral boxed numbers are modelled. Each is read through `doubleValue`, which rounds to nearest with ties to even (`ToDouble`), so `Long`s beyond 2^53 can compare equal. Character sequences are sequences of UTF-16 code units, so `compareTo` compares code units, surrogates included. The number's value is an unbounded integer; the width of each boxed class is not enforced. `Double` and `Float` are left out with the scores. A `Boolean` or `Character` reaches the numeric cast at `ComparatorUtil.java:36` and throws `ClassCastException`; that is not modelled. Every class other than the numbers and character sequences is `Obj`.
- Java's crashes, replaced by the intended algorithm as the module comment of `SkipLists` lists:
  - null level entries in both `createZslNode`/`zslCreateNode` and in `zslCreate`'s header;
  - the `i > 0` descent of `insert`;
  - the operator precedence of its loop test;
  - in `doesItExist`, the `i > 0` loop, the step back along `backward` and `findClosest` walking onto a null forward.
- SkipLists.SkipList.DoesItExist: does not model `doesItExist`'s match on the header's score, because the header is not a stored node.
- The `int` casts of spans and the `long` ranks: lengths are unbounded integers, so overflow past 2^31 nodes is not modelled.
- Deletion, rank lookup, range queries and reverse traversal: the source has none.
- `SkipListDemo.java` is not part of this model: it fills a library `ConcurrentSkipListMap` and prints it.
- SDS memory plumbing:
  - `sMalloc`, `malloc`, `realloc` and `sdsFree` become a fresh `buf` of the content bytes plus the terminator. The header's bytes, which the Java code also requests, are accounted for by `Header` and `NewLenBytes`/`RoomBytes`.
  - The grown array becomes the string's `buf`. The Java code never assigns the grown `sh`/`newSh` to `s.buf` (`SDS.java:204-216`), so there the buffer keeps its old length.
  - The `System.arraycopy` calls that pass `SDS` objects as arrays become copying the bytes they evidently mean.
  - The static `type` field becomes a per-string `kind`.
  - A `null` returned by an allocation is not modelled.
- SdsStrings.Sds.NewLen: the Java code sizes `buf` at `initLen`, so the terminator written at `SDS.java:72` falls outside it, and it copies from the fresh zeroed block instead of `init`. It also leaves `len` at 0 in the part elided at `:61` and `:69`. The model allocates `initLen + 1` bytes, copies `init` and sets `len = initLen`, `free = 0`.
- SdsStrings.Sds.MarkRoomFor: only the content and its terminator are carried into a grown buffer, not the bytes after the terminator that `realloc` copies.
- Java `int` overflow in the SDS arithmetic is excluded by preconditions. `NewLen` needs `hdrLen + initLen + 1` to be at most `Integer.MAX_VALUE`. `MarkRoomFor`, `CatLen` and `CatSds` need the same of `hdrLen + newLen + 1` (`RoomBytes`) when the string grows. `Valid` keeps the buffer length within `Integer.MAX_VALUE`, so `curLen + len` at `SDS.java:156` also fits. Wrap-around is not modelled.

## Findings

| source | as written | input that shows it | evidently intended | confidence | as-written member | corrected member |
|---|---|---|---|---|---|---|
| src/main/java/org/redis/lang/basis/SDS.java:219 | after growth `free` is set to the whole new capacity `newLen`, although `len` bytes of it are already in use (the field is documented as the bytes left in `buf`) | `len = 3`, `free = 0`, `addLen = 1`: capacity 8, `free` 8, so 11 bytes are claimed in an 8-byte buffer | `free = newLen - len` | high (not executed) | `SdsStrings.MarkRoomAsWritten`, `SdsStrings.MarkRoomAsWrittenOverstates` | `SdsStrings.MarkRoom`, `SdsStrings.MarkRoomMakesRoom`, `SdsStrings.Sds.MarkRoomFor` |
| src/main/java/org/redis/lang/basis/SDS.java:156-157 | `sdsCatLen` adds `len` to the length but leaves `free` as it was | empty string with 3 free bytes: append 2, then 3; the second append passes `avail >= addLen` and ends 2 bytes past the buffer | `free` decreases by the bytes appended | high (not executed) | `SdsStrings.CatAsWritten`, `SdsStrings.CatAsWrittenOverruns` | `SdsStrings.CatHeader`, `SdsStrings.CatHeaderFits`, `SdsStrings.Sds.CatLen` |
| src/main/java/org/redis/lang/basis/SDS.java:116-118 | `sdsClear` sets `len` to 0 but leaves `free` as it was, so the cleared bytes are not free although the comment at `:109-114` says later writes reuse the buffer | a new 3-byte string (`free = 0`), cleared, then 1 byte appended: the room test fails and the string grows into a 2-byte buffer | `free` increases by the old length | high (not executed) | `SdsStrings.ClearedAsWritten`, `SdsStrings.ClearedAsWrittenRegrows` | `SdsStrings.Cleared`, `SdsStrings.ClearedFits`, `SdsStrings.ClearedReuses`, `SdsStrings.Sds.Clear` |

The comment at `SDS.java:184` promises growth by 1 MB above `SDS_MAX_PREALLOC`, but both branches double. The model follows the code, and `GrowTarget` states that the threshold changes nothing.
