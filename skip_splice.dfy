/**
 * The arena between the loops of the insertion: after the raise of the
 * header's fresh levels, while the new node is spliced in level by level,
 * while the untouched levels are widened, and after the backward links.
 * Each loop's step is a lemma from one state of the arena to the next.
 */
module SkipSplice {
  import opened ComparatorUtil
  import opened SkipNode
  import opened SkipSpec
  import opened SkipLemmas

  /**
   * What the splice reads: a well-formed level structure and the descent's
   * path to index `r`, extended to the raised levels, where `update` is the
   * header and `rank` is 0.
   */
  ghost predicate Ready(nodes: seq<Node>, order: seq<nat>, lv: int, height: int, u: seq<int>, rk: seq<int>, r: nat)
  {
    && Shape(nodes, order, lv) && Links(nodes, order, lv) && 1 <= height <= MAX_LEVEL
    && DescentPath(nodes, order, Max(lv, height), u, rk, r)
    && (forall j :: 0 <= j < Max(lv, height) ==> 0 <= u[j] < |nodes| && j < |nodes[u[j]].level|)
    && (forall j :: lv <= j < Max(lv, height) ==> u[j] == 0 && rk[j] == 0)
  }

  /** The raise: levels `lv .. height - 1` are reached from the header, with nothing after it. */
  lemma RaisedPath(nodes: seq<Node>, order: seq<nat>, lv: int, height: int, u: seq<int>, rk: seq<int>,
                   u': seq<int>, rk': seq<int>)
    requires Shape(nodes, order, lv) && Links(nodes, order, lv) && 1 <= height <= MAX_LEVEL
    requires |rk| == MAX_LEVEL && 0 <= rk[0] <= |order| && DescentPath(nodes, order, lv, u, rk, rk[0])
    requires |u'| == MAX_LEVEL && |rk'| == MAX_LEVEL
    requires forall j :: 0 <= j < MAX_LEVEL ==>
      u'[j] == (if lv <= j < height then 0 else u[j]) && rk'[j] == (if lv <= j < height then 0 else rk[j])
    ensures rk'[0] == rk[0] && Ready(nodes, order, lv, height, u', rk', rk[0])
  {
    var hs := Heights(nodes, order);
    forall j | lv <= j < height ensures NextAt(hs, j, 0) == |order| + 1 {
      NextAtUnique(hs, j, 0, |order| + 1);
    }
  }

  /** An entry after the raise loop has reached level `h`: fresh header levels span the whole list. */
  function Raised(nodes: seq<Node>, lv: int, h: int, n: nat, a: nat, j: nat): Level
    requires a < |nodes| && j < |nodes[a].level|
  {
    if a == 0 && lv <= j < h then Level(nodes[0].level[j].forward, n) else nodes[a].level[j]
  }

  /** The arena as the raise loop leaves it after the levels below `h`. */
  ghost predicate RaisedTo(nodes: seq<Node>, n: nat, lv: int, h: int, cur: seq<Node>)
  {
    && |cur| == |nodes|
    && (forall a :: 0 <= a < |nodes| ==>
          && cur[a].score == nodes[a].score && cur[a].value == nodes[a].value
          && cur[a].backward == nodes[a].backward && |cur[a].level| == |nodes[a].level|)
    && (forall a, j :: 0 <= a < |nodes| && 0 <= j < |nodes[a].level| ==> cur[a].level[j] == Raised(nodes, lv, h, n, a, j))
  }

  /** One round of the raise loop: the header's level `h` spans the whole list. */
  lemma RaiseStep(nodes: seq<Node>, n: nat, lv: int, h: nat, cur: seq<Node>, cur': seq<Node>)
    requires |nodes| > 0 && |nodes[0].level| == MAX_LEVEL && lv <= h < MAX_LEVEL
    requires RaisedTo(nodes, n, lv, h, cur)
    requires cur' == cur[0 := WithLevel(cur[0], h, Level(cur[0].level[h].forward, n))]
    ensures RaisedTo(nodes, n, lv, h + 1, cur')
  {
  }

  /**
   * The arena `cur` while the splice and the untouched-level loops run: the
   * levels below `i` are edited, the others are as the raise loop left them.
   */
  ghost predicate SpliceProgress(nodes: seq<Node>, order: seq<nat>, lv: int, height: int,
                                 u: seq<int>, rk: seq<int>, r: nat, cur: seq<Node>, i: int)
    requires |nodes| == |order| + 1 && |u| == MAX_LEVEL && |rk| == MAX_LEVEL
    requires 0 <= height <= MAX_LEVEL && lv <= MAX_LEVEL && r <= |order|
    requires forall j :: 0 <= j < height ==> 0 <= u[j] < |nodes| && j < |nodes[u[j]].level|
  {
    var n := |order|;
    var x := n + 1;
    && Grown(nodes, order, height, cur)
    && (forall a, j :: 0 <= a <= n && 0 <= j < |nodes[a].level| ==>
          cur[a].level[j] ==
            (if j < i then Edited(nodes[a].level[j], a, j, Max(lv, height), height, u, rk, r, x)
             else Raised(nodes, lv, height, n, a, j)))
    && (forall j {:trigger cur[x].level[j]} :: 0 <= j < height && j < i ==>
          cur[x].level[j] ==
            Level(nodes[u[j]].level[j].forward, (if j < lv then nodes[u[j]].level[j].span else n) - (r - rk[j])))
    && (forall a :: 0 <= a <= n ==>
          cur[a].score == nodes[a].score && cur[a].value == nodes[a].value && cur[a].backward == nodes[a].backward)
  }

  /** Appending the new node to the raised arena starts the splice. */
  lemma SpliceStart(nodes: seq<Node>, order: seq<nat>, lv: int, height: int, u: seq<int>, rk: seq<int>, r: nat,
                    raised: seq<Node>, node: Node)
    requires Ready(nodes, order, lv, height, u, rk, r)
    requires RaisedTo(nodes, |order|, lv, height, raised) && |node.level| == height
    ensures SpliceProgress(nodes, order, lv, height, u, rk, r, raised + [node], 0)
  {
  }

  /**
   * One round of the splice loop: the new node takes over what followed
   * `update[i]` on level `i`, and `update[i]` now names the new node.
   */
  lemma SpliceStep(nodes: seq<Node>, order: seq<nat>, lv: int, height: int, u: seq<int>, rk: seq<int>, r: nat,
                   cur: seq<Node>, i: nat, cur': seq<Node>)
    requires Ready(nodes, order, lv, height, u, rk, r) && i < height
    requires SpliceProgress(nodes, order, lv, height, u, rk, r, cur, i)
    requires cur' ==
      var x, e := |order| + 1, cur[u[i]].level[i];
      cur[x := WithLevel(cur[x], i, Level(e.forward, e.span - (r - rk[i])))]
         [u[i] := WithLevel(cur[u[i]], i, Level(x, r - rk[i] + 1))]
    ensures SpliceProgress(nodes, order, lv, height, u, rk, r, cur', i + 1)
  {
  }

  /** One round of the untouched-level loop: `update[i]` now jumps over one more node. */
  lemma WidenStep(nodes: seq<Node>, order: seq<nat>, lv: int, height: int, u: seq<int>, rk: seq<int>, r: nat,
                  cur: seq<Node>, i: nat, cur': seq<Node>)
    requires Ready(nodes, order, lv, height, u, rk, r) && height <= i < lv
    requires SpliceProgress(nodes, order, lv, height, u, rk, r, cur, i)
    requires cur' ==
      var e := cur[u[i]].level[i];
      cur[u[i] := WithLevel(cur[u[i]], i, Level(e.forward, e.span + 1))]
    ensures SpliceProgress(nodes, order, lv, height, u, rk, r, cur', i + 1)
  {
  }

  /** After both loops the level entries are those of the splice, in `cur` and in any arena with its levels. */
  lemma SpliceDone(nodes: seq<Node>, order: seq<nat>, lv: int, height: int, u: seq<int>, rk: seq<int>, r: nat,
                   cur: seq<Node>, cur': seq<Node>)
    requires Ready(nodes, order, lv, height, u, rk, r)
    requires SpliceProgress(nodes, order, lv, height, u, rk, r, cur, Max(lv, height))
    requires |cur'| == |cur| && forall a :: 0 <= a < |cur| ==> cur'[a].level == cur[a].level
    ensures Grown(nodes, order, height, cur')
    ensures SplicedLinks(nodes, order, lv, height, u, rk, r, cur')
  {
  }

  /** The node after the insertion point on level 0: the old `order[r]`, or none at the end. */
  lemma FirstAfter(nodes: seq<Node>, order: seq<nat>, lv: int, height: int, u: seq<int>, rk: seq<int>, r: nat)
    requires Ready(nodes, order, lv, height, u, rk, r)
    ensures u[0] == At(order, r)
    ensures nodes[u[0]].level[0].forward == if r < |order| then order[r] else NIL
  {
    var hs := Heights(nodes, order);
    Step(nodes, order, lv, r, 0);
    if r < |order| {
      NextAtUnique(hs, 0, r, r + 1);
    }
  }
}
