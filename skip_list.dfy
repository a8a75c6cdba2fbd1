/**
 * The sorted-set skip list of `zskip/SkipList.java` (generic values, ties on
 * score broken by `ComparatorUtil.comparator`) and of `skip/SkipList.java`
 * (`Integer` values, score order only), as one class over an arena of nodes.
 *
 * Both Java files transcribe Redis's `zslInsert`, and both fail as written:
 *  - `skip/SkipList.java:70-77` and `zskip/SkipList.java:62-69` allocate the
 *    level array of a new node but leave every entry null; the skip variant
 *    then skips each level at `:249` and never links the node, the zskip
 *    variant throws at `:149`, and `zskip/SkipList.java:87-88` throws on the
 *    header. The model allocates every entry unlinked, as
 *    `skip/SkipList.java:95-99` does.
 *  - `zskip/SkipList.java:120` stops the descent at `i > 0`, so `update[0]`
 *    stays null; the model descends to level 0, as `skip/SkipList.java:218`.
 *  - `zskip/SkipList.java:122-126` reads `a && b || (c && d)`, which
 *    dereferences a null forward; the model tests `forward != null` first.
 *  - `doesItExist` (`skip/SkipList.java:169-197`) stops its descent at
 *    `i > 0`, steps back along `backward` between levels, and its
 *    `findClosest` (`:289-298`) walks onto a null forward; the model keeps
 *    the contract of its comment (`:155-168`) with a plain descent to level
 *    0, and the header is never a match.
 * The drawn height is a parameter of the insertion; `RandomLevel` models the
 * draw separately over a sequence of uniform samples.
 */
module SkipLists {
  import opened ComparatorUtil
  import opened SkipNode
  import opened SkipSpec
  import opened SkipLemmas
  import opened SkipSplice

  /** The probability of one more level. */
  const SKIP_LIST_P: real := 0.25

  /** `update[]` and `rank[]` as the descent leaves them. */
  datatype Descent = Descent(update: seq<int>, rank: seq<int>)

  /** The number of leading samples below `SKIP_LIST_P`. */
  function LeadingHits(draws: seq<real>): nat
  {
    if draws == [] || draws[0] >= SKIP_LIST_P then 0 else 1 + LeadingHits(draws[1..])
  }

  /** The height `randomLevel` draws from the samples: one plus the leading hits, at most 64. */
  function DrawnLevel(draws: seq<real>): (h: int)
    ensures 1 <= h <= MAX_LEVEL
  {
    if LeadingHits(draws) + 1 < MAX_LEVEL then LeadingHits(draws) + 1 else MAX_LEVEL
  }

  /**
   * `randomLevel` of both variants. `draws` stands for the successive values
   * of `random.nextDouble()`; when they run out the draw stops.
   */
  method RandomLevel(draws: seq<real>) returns (level: int)
    ensures 1 <= level <= MAX_LEVEL
    ensures level == DrawnLevel(draws)
  {
    level := 1;
    var k := 0;
    while k < |draws| && draws[k] < SKIP_LIST_P && level < MAX_LEVEL
      invariant 0 <= k <= |draws| && level == k + 1 <= MAX_LEVEL
      invariant LeadingHits(draws) == k + LeadingHits(draws[k..])
    {
      assert draws[k..][1..] == draws[k + 1..];
      level := level + 1;
      k := k + 1;
    }
  }

  /** The header: 64 unlinked levels, no backward link, score 0 and a null value. */
  method CreateHeader() returns (h: Node)
    ensures h.score == 0 && h.value == Null && h.backward == NIL
    ensures |h.level| == MAX_LEVEL
    ensures forall j :: 0 <= j < MAX_LEVEL ==> h.level[j] == Level(NIL, 0)
  {
    h := NewNode(0, Null);
    var j := 0;
    while j < MAX_LEVEL
      invariant 0 <= j <= MAX_LEVEL
      invariant h.score == 0 && h.value == Null && |h.level| == j
      invariant forall k :: 0 <= k < j ==> h.level[k] == Level(NIL, 0)
    {
      h := h.(level := h.level + [Level(NIL, 0)]);
      j := j + 1;
    }
    h := h.(backward := NIL);
  }

  /**
   * One level of the descent: from `x` (at position `px`) follow level `i`
   * while the next node precedes the new (score, value). Returns the last
   * node reached and the sum of the spans crossed; `bound` is a node the
   * levels above already ruled not to precede, so the walk stops before it.
   */
  method ScanLevel(tieBreak: bool, nodes: seq<Node>, ghost order: seq<nat>, level: int, i: int, x: int,
                   ghost px: nat, ghost bound: nat, score: int, value: Value)
    returns (res: Result<(int, int), CompareError>, ghost px': nat, ghost next: nat)
    requires 0 <= i && Scanning(tieBreak, nodes, order, level, i, px, bound, score, value) && x == At(order, px)
    ensures res.Ok? ==>
      && px <= px' && ScanDone(tieBreak, nodes, order, level, i, px', bound, next, score, value)
      && res.value.0 == At(order, px') && res.value.1 == px' - px
    ensures res.Err? ==> Throwing(tieBreak, nodes, order, score, value, res.error)
  {
    var y := x;
    var crossed := 0;
    px' := px;
    while nodes[y].level[i].forward != NIL
      invariant px <= px' && Scanning(tieBreak, nodes, order, level, i, px', bound, score, value)
      invariant y == At(order, px') && crossed == px' - px
      decreases |order| - px'
    {
      ScanMove(tieBreak, nodes, order, level, i, px', bound, score, value);
      var f := nodes[y].level[i].forward;
      var c := Precedes(tieBreak, nodes[f], score, value);
      if c.Throws? {
        ScanThrows(tieBreak, nodes, order, level, i, px', bound, score, value, c.error);
        return Err(c.error), px', 0;
      }
      if c == NotAhead {
        break;
      }
      crossed := crossed + nodes[y].level[i].span;
      y := f;
      px' := NextAt(Heights(nodes, order), i, px');
    }
    ScanEnd(tieBreak, nodes, order, level, i, px', bound, score, value);
    next := NextAt(Heights(nodes, order), i, px');
    res := Ok((y, crossed));
  }

  /**
   * The descent of the insertion: from the top level down to level 0, move
   * forward while the next node precedes the new (score, value), adding
   * the spans crossed to `rank[i]`, and remember the last node in
   * `update[i]`. `rank[i]` ends as the position of `update[i]`, and
   * `rank[0]` as the index at which the new node belongs. A comparator
   * exception ends the descent.
   */
  method FindUpdate(tieBreak: bool, nodes: seq<Node>, ghost order: seq<nat>, level: int, score: int, value: Value) returns (res: Result<Descent, CompareError>)
    requires Shape(nodes, order, level) && Links(nodes, order, level)
    ensures res.Ok? ==>
      && |res.value.rank| == MAX_LEVEL
      && 0 <= res.value.rank[0] <= |order|
      && DescentPath(nodes, order, level, res.value.update, res.value.rank, res.value.rank[0])
      && DescentVerdicts(tieBreak, nodes, order, score, value, res.value.rank[0])
    ensures res.Err? ==> Throwing(tieBreak, nodes, order, score, value, res.error)
  {
    var update := seq(MAX_LEVEL, _ => NIL);
    var rank := seq(MAX_LEVEL, _ => 0);
    var x := 0;
    // px: the position of x; bound: the nearest node already ruled not to precede
    ghost var px: nat := 0;
    ghost var bound: nat := |order| + 1;
    var i := level - 1;
    while i >= 0
      invariant Descending(tieBreak, nodes, order, level, update, rank, i, px, bound, score, value)
      invariant x == At(order, px)
      decreases i
    {
      DescendScan(tieBreak, nodes, order, level, update, rank, i, px, bound, score, value);
      var r, px', next := ScanLevel(tieBreak, nodes, order, level, i, x, px, bound, score, value);
      if r.Err? {
        return Err(r.error);
      }
      DescendStep(tieBreak, nodes, order, level, update, rank, i, px, bound, score, value, px', next);
      rank := rank[i := (if i == level - 1 then 0 else rank[i + 1]) + r.value.1];
      x := r.value.0;
      update := update[i := x];
      px, bound := px', next;
      i := i - 1;
    }
    DescendDone(tieBreak, nodes, order, level, update, rank, px, bound, score, value);
    res := Ok(Descent(update, rank));
  }

  /**
   * The raise of the insertion, for a new node taller than the list: each
   * level from `lv` up to `height` starts at the header (rank 0), and the
   * header's entry there spans the whole list.
   */
  method RaiseHeader(nodes: seq<Node>, ghost order: seq<nat>, lv: int, height: int, length: int,
                     update: seq<int>, rank: seq<int>)
    returns (cur: seq<Node>, update': seq<int>, rank': seq<int>)
    requires Shape(nodes, order, lv) && Links(nodes, order, lv) && 1 <= height <= MAX_LEVEL && length == |order|
    requires |rank| == MAX_LEVEL && 0 <= rank[0] <= |order| && DescentPath(nodes, order, lv, update, rank, rank[0])
    ensures |rank'| == MAX_LEVEL && rank'[0] == rank[0] && Ready(nodes, order, lv, height, update', rank', rank[0])
    ensures forall j :: 0 <= j < MAX_LEVEL ==>
      update'[j] == (if lv <= j < height then 0 else update[j]) && rank'[j] == (if lv <= j < height then 0 else rank[j])
    ensures RaisedTo(nodes, |order|, lv, height, cur)
  {
    cur, update', rank' := nodes, update, rank;
    var i := lv;
    while i < height
      invariant lv <= i <= Max(lv, height)
      invariant |update'| == MAX_LEVEL && |rank'| == MAX_LEVEL
      invariant forall j :: 0 <= j < MAX_LEVEL ==>
        update'[j] == (if lv <= j < i then 0 else update[j]) && rank'[j] == (if lv <= j < i then 0 else rank[j])
      invariant RaisedTo(nodes, |order|, lv, i, cur)
    {
      rank' := rank'[i := 0];
      update' := update'[i := 0];
      var c := cur;
      cur := cur[0 := WithLevel(cur[0], i, Level(cur[0].level[i].forward, length))];
      RaiseStep(nodes, |order|, lv, i, c, cur);
      i := i + 1;
    }
    RaisedPath(nodes, order, lv, height, update, rank, update', rank');
  }

  /**
   * The splice loop and the untouched-level loop: on each level below
   * `height` the new node `x` (the last arena slot) is linked after
   * `update[i]` and the two spans are split at the insertion point; on each
   * level above it that is in use, `update[i]` jumps over one more node.
   */
  method Splice(ghost nodes: seq<Node>, ghost order: seq<nat>, lv: int, height: int,
                update: seq<int>, rank: seq<int>, ghost r: nat, start: seq<Node>)
    returns (cur: seq<Node>)
    requires Ready(nodes, order, lv, height, update, rank, r)
    requires SpliceProgress(nodes, order, lv, height, update, rank, r, start, 0)
    ensures SpliceProgress(nodes, order, lv, height, update, rank, r, cur, Max(lv, height))
    ensures cur[|order| + 1].score == start[|order| + 1].score && cur[|order| + 1].value == start[|order| + 1].value
    ensures cur[|order| + 1].backward == start[|order| + 1].backward
  {
    cur := SpliceNew(nodes, order, lv, height, update, rank, r, start);
    cur := Widen(nodes, order, lv, height, update, rank, r, cur);
  }

  /** The levels the new node is on: it takes over what followed `update[i]`, which now points at it. */
  method SpliceNew(ghost nodes: seq<Node>, ghost order: seq<nat>, lv: int, height: int,
                   update: seq<int>, rank: seq<int>, ghost r: nat, start: seq<Node>)
    returns (cur: seq<Node>)
    requires Ready(nodes, order, lv, height, update, rank, r)
    requires SpliceProgress(nodes, order, lv, height, update, rank, r, start, 0)
    ensures SpliceProgress(nodes, order, lv, height, update, rank, r, cur, height)
    ensures cur[|order| + 1].score == start[|order| + 1].score && cur[|order| + 1].value == start[|order| + 1].value
    ensures cur[|order| + 1].backward == start[|order| + 1].backward
  {
    var x := |start| - 1;
    cur := start;
    for i := 0 to height
      invariant SpliceProgress(nodes, order, lv, height, update, rank, r, cur, i)
      invariant cur[x].score == start[x].score && cur[x].value == start[x].value && cur[x].backward == start[x].backward
    {
      var c := cur;
      var e := cur[update[i]].level[i];
      cur := cur[x := WithLevel(cur[x], i, Level(e.forward, e.span - (rank[0] - rank[i])))];
      cur := cur[update[i] := WithLevel(cur[update[i]], i, Level(x, rank[0] - rank[i] + 1))];
      SpliceStep(nodes, order, lv, height, update, rank, r, c, i, cur);
    }
  }

  /** The levels above the new node up to the list's level: `update[i]` jumps over one more node. */
  method Widen(ghost nodes: seq<Node>, ghost order: seq<nat>, lv: int, height: int,
               update: seq<int>, rank: seq<int>, ghost r: nat, start: seq<Node>)
    returns (cur: seq<Node>)
    requires Ready(nodes, order, lv, height, update, rank, r)
    requires SpliceProgress(nodes, order, lv, height, update, rank, r, start, height)
    ensures SpliceProgress(nodes, order, lv, height, update, rank, r, cur, Max(lv, height))
    ensures cur[|order| + 1].score == start[|order| + 1].score && cur[|order| + 1].value == start[|order| + 1].value
    ensures cur[|order| + 1].backward == start[|order| + 1].backward
  {
    var x := |start| - 1;
    cur := start;
    var i := height;
    while i < lv
      invariant height <= i <= Max(lv, height)
      invariant SpliceProgress(nodes, order, lv, height, update, rank, r, cur, i)
      invariant cur[x].score == start[x].score && cur[x].value == start[x].value && cur[x].backward == start[x].backward
    {
      var c := cur;
      var e := cur[update[i]].level[i];
      cur := cur[update[i] := WithLevel(cur[update[i]], i, Level(e.forward, e.span + 1))];
      WidenStep(nodes, order, lv, height, update, rank, r, c, i, cur);
      i := i + 1;
    }
  }

  /**
   * The backward links of the insertion: the new node's names `update[0]`
   * (null for the header), and the node after it, if any, now names the new
   * node. `atEnd` is true when there is none, and the new node is the tail.
   */
  method LinkBackward(ghost nodes: seq<Node>, ghost order: seq<nat>, ghost lv: int, height: int,
                      update: seq<int>, rank: seq<int>, ghost r: nat, spliced: seq<Node>,
                      ghost score: int, ghost value: Value)
    returns (cur: seq<Node>, atEnd: bool)
    requires Ready(nodes, order, lv, height, update, rank, r)
    requires SpliceProgress(nodes, order, lv, height, update, rank, r, spliced, Max(lv, height))
    requires spliced[|order| + 1].score == score && spliced[|order| + 1].value == value
    ensures Grown(nodes, order, height, cur)
    ensures SplicedLinks(nodes, order, lv, height, update, rank, r, cur)
    ensures SplicedFields(nodes, order, score, value, r, cur)
    ensures atEnd <==> r == |order|
  {
    FirstAfter(nodes, order, lv, height, update, rank, r);
    var x := |spliced| - 1;
    var b := if update[0] == 0 then NIL else update[0];
    cur := spliced[x := spliced[x].(backward := b)];
    var f := cur[x].level[0].forward;
    if f != NIL {
      cur := cur[f := cur[f].(backward := x)];
      atEnd := false;
    } else {
      atEnd := true;
    }
    SpliceDone(nodes, order, lv, height, update, rank, r, spliced, cur);
  }

  /** The list after an insertion: the arena, the new node's slot, the level in use and the tail. */
  datatype Linked = Linked(nodes: seq<Node>, x: nat, level: int, tail: int)

  /**
   * Everything of the insertion after the descent: the raise, the new node,
   * the splice and untouched-level loops and the backward links.
   */
  method Link(tieBreak: bool, nodes: seq<Node>, ghost order: seq<nat>, level: int, length: int, tail: int,
              height: int, score: int, value: Value, d: Descent)
    returns (res: Linked, ghost order': seq<nat>)
    requires WellFormed(tieBreak, nodes, order, level, tail) && length == |order| && 1 <= height <= MAX_LEVEL
    requires |d.rank| == MAX_LEVEL && 0 <= d.rank[0] <= |order|
    requires DescentPath(nodes, order, level, d.update, d.rank, d.rank[0])
    requires DescentVerdicts(tieBreak, nodes, order, score, value, d.rank[0])
    ensures WellFormed(tieBreak, res.nodes, order', res.level, res.tail)
    ensures Added(nodes, order, level, res.nodes, order', res.level, score, value, height, d.rank[0], res.x)
  {
    var update, rank := d.update, d.rank;
    ghost var r: nat := rank[0];
    var raised;
    raised, update, rank := RaiseHeader(nodes, order, level, height, length, update, rank);
    var x := |nodes|;
    SpliceStart(nodes, order, level, height, update, rank, r, raised, CreateNode(height, score, value));
    var spliced := Splice(nodes, order, level, height, update, rank, r, raised + [CreateNode(height, score, value)]);
    var cur, atEnd := LinkBackward(nodes, order, level, height, update, rank, r, spliced, score, value);
    res := Linked(cur, x, if height > level then height else level, if atEnd then x else tail);
    order' := OrderInserted(order, r, x);
    InsertAdded(tieBreak, nodes, order, level, tail, height, update, rank, d.rank[0], score, value,
                res.nodes, order', res.level, res.tail, res.x);
  }

  /** The descent, then the relinking; a comparator exception aborts before any change. */
  method Insert(tieBreak: bool, nodes: seq<Node>, ghost order: seq<nat>, level: int, length: int, tail: int,
                score: int, value: Value, height: int)
    returns (res: Result<Linked, CompareError>, ghost order': seq<nat>, ghost r: nat)
    requires WellFormed(tieBreak, nodes, order, level, tail) && length == |order| && 1 <= height <= MAX_LEVEL
    ensures res.Err? ==> Throwing(tieBreak, nodes, order, score, value, res.error)
    ensures !tieBreak ==> res.Ok?
    ensures res.Ok? ==> && WellFormed(tieBreak, res.value.nodes, order', res.value.level, res.value.tail)
                        && |order'| == length + 1
                        && Added(nodes, order, level, res.value.nodes, order', res.value.level, score, value, height, r, res.value.x)
                        && DescentVerdicts(tieBreak, nodes, order, score, value, r)
  {
    var d := FindUpdate(tieBreak, nodes, order, level, score, value);
    if d.Err? {
      ScoreOrderNeverThrows(nodes, order, score, value, d.error);
      return Err(d.error), order, 0;
    }
    r := d.value.rank[0];
    var l;
    l, order' := Link(tieBreak, nodes, order, level, length, tail, height, score, value, d.value);
    res := Ok(l);
  }

  /** The search of `DoesItExist` over the list's state. */
  method Lookup(tieBreak: bool, nodes: seq<Node>, ghost order: seq<nat>, level: int, ghost tail: int, score: int)
    returns (found: bool)
    requires WellFormed(tieBreak, nodes, order, level, tail)
    ensures found <==> exists k :: 0 <= k < |order| && nodes[order[k]].score == score
  {
    var d := FindUpdate(false, nodes, order, level, score, Null);
    ScoreOrderNeverThrows(nodes, order, score, Null, if d.Err? then d.error else IllegalArgument);
    var f := nodes[d.value.update[0]].level[0].forward;
    LookupStop(tieBreak, nodes, order, level, tail, d.value.update, d.value.rank, d.value.rank[0], score);
    found := f != NIL && nodes[f].score == score;
  }

  class SkipList {
    /** The arena: index 0 is the header, a link is an index or `NIL`. */
    var nodes: seq<Node>
    /** The number of levels in use. */
    var level: int
    /** The number of stored nodes. */
    var length: int
    /** The last node, or `NIL`. */
    var tail: int
    /** The arena indices of the stored nodes in level-0 order. */
    ghost var order: seq<nat>
    /** Whether equal scores are ordered by `Comparator` on the values (the generic list). */
    const tieBreak: bool

    ghost predicate Valid()
      reads this
    {
      WellFormed(tieBreak, nodes, order, level, tail) && length == |order|
    }

    /** `zslCreate` of the generic list. */
    constructor ZslCreate()
      ensures Valid() && tieBreak
      ensures level == 1 && length == 0 && tail == NIL && order == []
      ensures |nodes| == 1 && nodes[0].backward == NIL && |nodes[0].level| == MAX_LEVEL
      ensures forall j :: 0 <= j < MAX_LEVEL ==> nodes[0].level[j] == Level(NIL, 0)
    {
      tieBreak := true;
      level := 1;
      length := 0;
      var h := CreateHeader();
      nodes := [h];
      tail := NIL;
      order := [];
    }

    /** `createZslList` of the `Integer` list. */
    constructor CreateZslList()
      ensures Valid() && !tieBreak
      ensures level == 1 && length == 0 && tail == NIL && order == []
      ensures |nodes| == 1 && nodes[0].backward == NIL && |nodes[0].level| == MAX_LEVEL
      ensures forall j :: 0 <= j < MAX_LEVEL ==> nodes[0].level[j] == Level(NIL, 0)
    {
      tieBreak := false;
      level := 1;
      length := 0;
      var h := CreateHeader();
      nodes := [h];
      tail := NIL;
      order := [];
    }

    /**
     * `insert` of the generic list and `add` of the `Integer` list, for a
     * new node of `height` levels: the descent finds the insertion point,
     * the raise, the splice and the untouched-level loops relink every level
     * in use, then the backward links, the tail and the length follow. A
     * comparator exception during the descent leaves the list as it was.
     * Returns the arena index of the new node.
     */
    method InsertNode(score: int, value: Value, height: int) returns (res: Result<nat, CompareError>, ghost r: nat)
      requires Valid() && 1 <= height <= MAX_LEVEL
      modifies this
      ensures Valid()
      ensures res.Err? ==> unchanged(this) && Throwing(tieBreak, nodes, order, score, value, res.error)
      ensures !tieBreak ==> res.Ok?
      ensures res.Ok? ==>
        && length == old(length) + 1
        && Added(old(nodes), old(order), old(level), nodes, order, level, score, value, height, r, res.value)
        && DescentVerdicts(tieBreak, old(nodes), old(order), score, value, r)
    {
      var o, order', r' := Insert(tieBreak, nodes, order, level, length, tail, score, value, height);
      r := r';
      if o.Err? {
        return Err(o.error), r;
      }
      var l := o.value;
      res := Ok(l.x);
      nodes, level, tail, length, order := l.nodes, l.level, l.tail, length + 1, order';
    }

    /**
     * `doesItExist`: whether a stored node has `score` (the header does not
     * count). The descent in score order stops, on every level down to 0,
     * before the first node whose score is not below `score`; the level-0
     * successor then has `score` or no node has.
     */
    method DoesItExist(score: int) returns (found: bool)
      requires Valid()
      ensures found <==> exists k :: 0 <= k < |order| && nodes[order[k]].score == score
    {
      found := Lookup(tieBreak, nodes, order, level, tail, score);
    }
  }
}
