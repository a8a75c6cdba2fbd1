/**
 * Facts about successors on a level (`NextAt`) and how they move when one
 * node is inserted into the level-0 order.
 */
module SkipLemmas {
  import opened SkipNode
  import opened SkipSpec

  /** No position strictly between `p` and its successor on level `j` reaches that level. */
  lemma {:induction false} NextAtGap(hs: seq<nat>, j: nat, p: nat, k: nat)
    requires p <= |hs| && p <= k < NextAt(hs, j, p) - 1
    ensures hs[k] <= j
    decreases |hs| - p
  {
    if k > p {
      NextAtGap(hs, j, p + 1, k);
    }
  }

  /** `NextAt` is the only position with its defining properties. */
  lemma {:induction false} NextAtUnique(hs: seq<nat>, j: nat, p: nat, q: nat)
    requires p < q <= |hs| + 1
    requires q <= |hs| ==> hs[q - 1] > j
    requires forall k :: p <= k < q - 1 ==> hs[k] <= j
    ensures NextAt(hs, j, p) == q
    decreases |hs| - p
  {
    if q > p + 1 {
      NextAtUnique(hs, j, p + 1, q);
    }
  }

  /** A node on level `j` after `p` is no nearer than `p`'s successor. */
  lemma NextAtFirst(hs: seq<nat>, j: nat, p: nat, c: nat)
    requires p < c <= |hs| && hs[c - 1] > j
    ensures NextAt(hs, j, p) <= c
  {
    if NextAt(hs, j, p) > c {
      NextAtGap(hs, j, p, c - 1);
    }
  }

  /** When no node on level `j` lies in (p, r], `r` has the same successor as `p`. */
  lemma NextAtSkips(hs: seq<nat>, j: nat, p: nat, r: nat)
    requires p <= r <= |hs| && NextAt(hs, j, p) > r
    ensures NextAt(hs, j, r) == NextAt(hs, j, p)
  {
    forall k | r <= k < NextAt(hs, j, p) - 1 ensures hs[k] <= j {
      NextAtGap(hs, j, p, k);
    }
    NextAtUnique(hs, j, r, NextAt(hs, j, p));
  }

  /** The heights after inserting a node of height `h` at 0-based index `r`. */
  function Inserted(hs: seq<nat>, r: nat, h: nat): (hs': seq<nat>)
    requires r <= |hs|
    ensures |hs'| == |hs| + 1
    ensures forall k :: 0 <= k < r ==> hs'[k] == hs[k]
    ensures hs'[r] == h
    ensures forall k :: r < k <= |hs| ==> hs'[k] == hs[k - 1]
  {
    hs[..r] + [h] + hs[r..]
  }

  /** Successors of positions up to the insertion point. */
  lemma NextAtInsertedBefore(hs: seq<nat>, r: nat, h: nat, j: nat, p: nat)
    requires p <= r <= |hs|
    ensures NextAt(Inserted(hs, r, h), j, p) ==
      var q := NextAt(hs, j, p);
      if q <= r then q else if h > j then r + 1 else q + 1
  {
    var hs' := Inserted(hs, r, h);
    var q := NextAt(hs, j, p);
    if q <= r {
      forall k | p <= k < q - 1 ensures hs'[k] <= j {
        NextAtGap(hs, j, p, k);
      }
      NextAtUnique(hs', j, p, q);
    } else if h > j {
      forall k | p <= k < r ensures hs'[k] <= j {
        NextAtGap(hs, j, p, k);
      }
      NextAtUnique(hs', j, p, r + 1);
    } else {
      forall k | p <= k < q ensures hs'[k] <= j {
        if k > r { assert hs'[k] == hs[k - 1]; }
        if k < q - 1 { NextAtGap(hs, j, p, k); }
        if k > r { NextAtGap(hs, j, p, k - 1); }
      }
      NextAtUnique(hs', j, p, q + 1);
    }
  }

  /** Successors of positions from the insertion point on shift by one. */
  lemma NextAtInsertedAfter(hs: seq<nat>, r: nat, h: nat, j: nat, p: nat)
    requires r <= p <= |hs|
    ensures NextAt(Inserted(hs, r, h), j, p + 1) == NextAt(hs, j, p) + 1
  {
    var hs' := Inserted(hs, r, h);
    var q := NextAt(hs, j, p);
    forall k | p + 1 <= k < q ensures hs'[k] <= j {
      assert hs'[k] == hs[k - 1];
      NextAtGap(hs, j, p, k - 1);
    }
    NextAtUnique(hs', j, p + 1, q + 1);
  }

  // ---------------------------------------------------------------------------
  // Insertion

  /** Distinct positions name distinct arena slots. */
  lemma AtInjective(nodes: seq<Node>, order: seq<nat>, level: int, p1: nat, p2: nat)
    requires Shape(nodes, order, level) && p1 <= |order| && p2 <= |order|
    requires At(order, p1) == At(order, p2)
    ensures p1 == p2
  {
    if p1 > 0 && p2 > 0 {
      assert PosIn(order, order[p1 - 1]) == p1 - 1 && PosIn(order, order[p2 - 1]) == p2 - 1;
    }
  }

  /** Two indices of `order` hold different nodes. */
  lemma OrderDistinct(nodes: seq<Node>, order: seq<nat>, level: int, k: nat, m: nat)
    requires Shape(nodes, order, level) && k < |order| && m < |order| && k != m
    ensures order[k] != order[m]
  {
    assert PosIn(order, order[k]) == k && PosIn(order, order[m]) == m;
  }

  /** `PosIn` finds the last occurrence. */
  lemma {:induction false} PosInLast(s: seq<nat>, a: nat, k: nat)
    requires k < |s| && s[k] == a
    requires forall m :: k < m < |s| ==> s[m] != a
    ensures PosIn(s, a) == k
    decreases |s|
  {
    if k < |s| - 1 {
      PosInLast(s[..|s| - 1], a, k);
    }
  }

  /** The level-0 order after the new node `x` is put at index `r`. */
  function OrderInserted(order: seq<nat>, r: nat, x: nat): (o: seq<nat>)
    requires r <= |order|
    ensures |o| == |order| + 1
    ensures forall p :: 0 <= p <= r ==> At(o, p) == At(order, p)
    ensures At(o, r + 1) == x
    ensures forall p :: r + 1 < p <= |order| + 1 ==> At(o, p) == At(order, p - 1)
  {
    order[..r] + [x] + order[r..]
  }

  /**
   * What the descent leaves in `update` (u) and `rank` (rk) for every level
   * below `top`: the last node on level j before the insertion point `r`
   * and its position, with no node on level j between it and `r`.
   */
  ghost predicate DescentPath(nodes: seq<Node>, order: seq<nat>, top: int, u: seq<int>, rk: seq<int>, r: nat)
    requires InArena(nodes, order) && |nodes| > 0
  {
    var hs := Heights(nodes, order);
    && |u| == MAX_LEVEL && |rk| == MAX_LEVEL && 1 <= top <= MAX_LEVEL && r <= |order|
    && rk[0] == r
    && (forall j :: 0 <= j < top ==>
          && 0 <= rk[j] <= r
          && u[j] == At(order, rk[j])
          && j < |nodes[u[j]].level|
          && NextAt(hs, j, rk[j]) > r)
  }

  /** The descent's verdicts on the nodes on either side of the insertion point. */
  ghost predicate DescentVerdicts(tieBreak: bool, nodes: seq<Node>, order: seq<nat>, score: int, value: ComparatorUtil.Value, r: nat)
    requires InArena(nodes, order) && r <= |order|
  {
    && (r > 0 ==> Precedes(tieBreak, nodes[order[r - 1]], score, value) == Ahead)
    && (r < |order| ==> Precedes(tieBreak, nodes[order[r]], score, value) == NotAhead)
  }

  /** An existing entry after the splice: `update[j]` now points at `x`, or spans one more. */
  function Edited(e: Level, a: nat, j: nat, top: int, height: int, u: seq<int>, rk: seq<int>, r: nat, x: nat): Level
    requires |u| == MAX_LEVEL && |rk| == MAX_LEVEL && top <= MAX_LEVEL
  {
    if j < top && a == u[j] then
      (if j < height then Level(x, r - rk[j] + 1) else Level(e.forward, e.span + 1))
    else e
  }

  function Max(a: int, b: int): int { if a < b then b else a }

  /** The arena grew by the new node `x` = |order| + 1 of `height` levels; other heights are unchanged. */
  ghost predicate Grown(nodes: seq<Node>, order: seq<nat>, height: int, nodes': seq<Node>)
    requires |nodes| == |order| + 1
  {
    && |nodes'| == |order| + 2
    && |nodes'[|order| + 1].level| == height
    && (forall a :: 0 <= a <= |order| ==> |nodes'[a].level| == |nodes[a].level|)
  }

  /**
   * The level entries of `nodes'` after `x` is spliced in at level-0 index
   * `r`, with `update`/`rank` as the descent left them and `level` raised
   * from `lv` to `Max(lv, height)`.
   */
  ghost predicate SplicedLinks(nodes: seq<Node>, order: seq<nat>, lv: int, height: int,
                               u: seq<int>, rk: seq<int>, r: nat, nodes': seq<Node>)
    requires |nodes| == |order| + 1 && |u| == MAX_LEVEL && |rk| == MAX_LEVEL
    requires 0 <= height <= MAX_LEVEL && lv <= MAX_LEVEL && r <= |order|
    requires forall j :: 0 <= j < height ==> 0 <= u[j] < |nodes| && j < |nodes[u[j]].level|
    requires Grown(nodes, order, height, nodes')
  {
    var n := |order|;
    var x := n + 1;
    && (forall a, j :: 0 <= a <= n && 0 <= j < |nodes[a].level| ==>
          nodes'[a].level[j] == Edited(nodes[a].level[j], a, j, Max(lv, height), height, u, rk, r, x))
    && (forall j {:trigger nodes'[x].level[j]} :: 0 <= j < height ==>
          nodes'[x].level[j] ==
            Level(nodes[u[j]].level[j].forward, (if j < lv then nodes[u[j]].level[j].span else n) - (r - rk[j])))
  }

  /** Scores, values and backward links after the splice. */
  ghost predicate SplicedFields(nodes: seq<Node>, order: seq<nat>, score: int, value: ComparatorUtil.Value,
                                r: nat, nodes': seq<Node>)
    requires |nodes| == |order| + 1 && |nodes'| == |order| + 2 && r <= |order|
  {
    var n := |order|;
    var x := n + 1;
    && (forall a :: 0 <= a <= n ==>
          && nodes'[a].score == nodes[a].score
          && nodes'[a].value == nodes[a].value
          && nodes'[a].backward == (if r < n && a == order[r] then x else nodes[a].backward))
    && nodes'[x].score == score && nodes'[x].value == value
    && nodes'[x].backward == (if r == 0 then NIL else order[r - 1])
  }

  /** The level structure before, the descent's path and the arena entries after. */
  ghost predicate LinkStep(nodes: seq<Node>, order: seq<nat>, lv: int, height: int,
                           u: seq<int>, rk: seq<int>, r: nat, nodes': seq<Node>)
  {
    && Shape(nodes, order, lv)
    && Links(nodes, order, lv)
    && 1 <= height <= MAX_LEVEL
    && DescentPath(nodes, order, Max(lv, height), u, rk, r)
    && Grown(nodes, order, height, nodes')
    && SplicedLinks(nodes, order, lv, height, u, rk, r, nodes')
  }

  /** Levels above the old `level` are reached only from the header. */
  lemma HighLevelsAtHeader(nodes: seq<Node>, order: seq<nat>, lv: int, top: int, u: seq<int>, rk: seq<int>, r: nat, j: nat)
    requires Shape(nodes, order, lv) && Links(nodes, order, lv)
    requires DescentPath(nodes, order, top, u, rk, r)
    requires lv <= j < top
    ensures rk[j] == 0 && u[j] == 0
    ensures NextAt(Heights(nodes, order), j, 0) == |order| + 1
    ensures nodes[0].level[j] == Level(NIL, 0)
  {
    var hs := Heights(nodes, order);
    NextAtUnique(hs, j, 0, |order| + 1);
  }

  lemma HeightsInserted(nodes: seq<Node>, order: seq<nat>, height: nat, r: nat, nodes': seq<Node>)
    requires |nodes| == |order| + 1 && r <= |order|
    requires forall k :: 0 <= k < |order| ==> 1 <= order[k] <= |order|
    requires |nodes'| == |order| + 2 && |nodes'[|order| + 1].level| == height
    requires forall a :: 0 <= a <= |order| ==> |nodes'[a].level| == |nodes[a].level|
    ensures InArena(nodes', OrderInserted(order, r, |order| + 1))
    ensures Heights(nodes', OrderInserted(order, r, |order| + 1)) == Inserted(Heights(nodes, order), r, height)
  {
    var o' := OrderInserted(order, r, |order| + 1);
    assert forall k :: 0 <= k < |o'| ==> o'[k] == At(o', k + 1);
    var hs' := Heights(nodes', o');
    var ins := Inserted(Heights(nodes, order), r, height);
    forall k | 0 <= k < |o'| ensures hs'[k] == ins[k] {
      if k < r {
        assert o'[k] == order[k];
      } else if k > r {
        assert o'[k] == order[k - 1];
      }
    }
  }

  // Canonical entries after an insertion at index r, with o' and hs' the new order and heights.

  /** Behind the insertion point, an entry whose successor is also behind it is unchanged. */
  lemma CanonBeforeUnchanged(order: seq<nat>, hs: seq<nat>, r: nat, x: nat, height: nat, j: nat, p: nat)
    requires |hs| == |order| && p <= r <= |order| && NextAt(hs, j, p) <= r
    ensures Canon(OrderInserted(order, r, x), Inserted(hs, r, height), j, p) == Canon(order, hs, j, p)
  {
    NextAtInsertedBefore(hs, r, height, j, p);
  }

  /** The entry that jumps over the insertion point now stops at the new node... */
  lemma CanonBeforeToNew(order: seq<nat>, hs: seq<nat>, r: nat, x: nat, height: nat, j: nat, p: nat)
    requires |hs| == |order| && p <= r <= |order| && NextAt(hs, j, p) > r && j < height
    ensures Canon(OrderInserted(order, r, x), Inserted(hs, r, height), j, p) == Level(x, r + 1 - p)
  {
    NextAtInsertedBefore(hs, r, height, j, p);
  }

  /** ...or, on a level the new node does not reach, spans one more node. */
  lemma CanonBeforeOver(order: seq<nat>, hs: seq<nat>, r: nat, x: nat, height: nat, j: nat, p: nat)
    requires |hs| == |order| && p <= r <= |order| && NextAt(hs, j, p) > r && height <= j
    ensures var c := Canon(order, hs, j, p);
      Canon(OrderInserted(order, r, x), Inserted(hs, r, height), j, p) == Level(c.forward, c.span + 1)
  {
    NextAtInsertedBefore(hs, r, height, j, p);
  }

  /** The new node takes over the successor of the entry it was spliced behind. */
  lemma CanonNew(order: seq<nat>, hs: seq<nat>, r: nat, x: nat, height: nat, j: nat, p: nat)
    requires |hs| == |order| && p <= r <= |order| && NextAt(hs, j, p) > r
    ensures var c := Canon(order, hs, j, p);
      Canon(OrderInserted(order, r, x), Inserted(hs, r, height), j, r + 1) == Level(c.forward, c.span - (r - p))
  {
    NextAtInsertedAfter(hs, r, height, j, r);
    NextAtSkips(hs, j, p, r);
  }

  /** Beyond the insertion point, entries move one position on and keep their value. */
  lemma CanonAfter(order: seq<nat>, hs: seq<nat>, r: nat, x: nat, height: nat, j: nat, q: nat)
    requires |hs| == |order| && r + 1 < q <= |order| + 1
    ensures Canon(OrderInserted(order, r, x), Inserted(hs, r, height), j, q) == Canon(order, hs, j, q - 1)
  {
    NextAtInsertedAfter(hs, r, height, j, q - 1);
  }

  /** On a level above every node, the header's canonical entry spans the whole list. */
  lemma CanonEmptyLevel(order: seq<nat>, hs: seq<nat>, j: nat)
    requires |hs| == |order| && forall k :: 0 <= k < |hs| ==> hs[k] <= j
    ensures Canon(order, hs, j, 0) == Level(NIL, |order|)
  {
    NextAtUnique(hs, j, 0, |order| + 1);
  }

  /** The new node's level-`j` entry takes over what followed `update[j]`, less the nodes before it. */
  lemma NewEntryFromPath(nodes: seq<Node>, order: seq<nat>, lv: int, height: int,
                         u: seq<int>, rk: seq<int>, r: nat, nodes': seq<Node>, j: nat)
    requires LinkStep(nodes, order, lv, height, u, rk, r, nodes')
    requires j < height
    ensures 0 <= rk[j] <= r && NextAt(Heights(nodes, order), j, rk[j]) > r
    ensures var c := Canon(order, Heights(nodes, order), j, rk[j]);
      nodes'[|order| + 1].level[j] == Level(c.forward, c.span - (r - rk[j]))
  {
    var hs := Heights(nodes, order);
    if j >= lv {
      HighLevelsAtHeader(nodes, order, lv, Max(lv, height), u, rk, r, j);
      CanonEmptyLevel(order, hs, j);
    } else {
      assert nodes[u[j]].level[j] == Canon(order, hs, j, rk[j]);
    }
  }

  /** The new node's entries are canonical. */
  lemma EntryOfNew(nodes: seq<Node>, order: seq<nat>, lv: int, height: int,
                   u: seq<int>, rk: seq<int>, r: nat, nodes': seq<Node>, j: nat)
    requires LinkStep(nodes, order, lv, height, u, rk, r, nodes')
    requires j < height
    ensures nodes'[|order| + 1].level[j] ==
      Canon(OrderInserted(order, r, |order| + 1), Inserted(Heights(nodes, order), r, height), j, r + 1)
  {
    NewEntryFromPath(nodes, order, lv, height, u, rk, r, nodes', j);
    CanonNew(order, Heights(nodes, order), r, |order| + 1, height, j, rk[j]);
  }

  /** Entries at or before the insertion point are canonical. */
  lemma EntryBefore(nodes: seq<Node>, order: seq<nat>, lv: int, height: int,
                    u: seq<int>, rk: seq<int>, r: nat, nodes': seq<Node>, p: nat, j: nat)
    requires LinkStep(nodes, order, lv, height, u, rk, r, nodes')
    requires p <= r && j < Max(lv, height) && j < |nodes[At(order, p)].level|
    ensures nodes'[At(order, p)].level[j] ==
      Canon(OrderInserted(order, r, |order| + 1), Inserted(Heights(nodes, order), r, height), j, p)
  {
    var n, x, hs := |order|, |order| + 1, Heights(nodes, order);
    var top := Max(lv, height);
    var a := At(order, p);
    var e := nodes[a].level[j];
    assert nodes'[a].level[j] == Edited(e, a, j, top, height, u, rk, r, x);
    if j >= lv {
      HighLevelsAtHeader(nodes, order, lv, top, u, rk, r, j);
      assert p == 0;
      CanonBeforeToNew(order, hs, r, x, height, j, 0);
    } else {
      assert e == Canon(order, hs, j, p);
      if a == u[j] {
        AtInjective(nodes, order, lv, p, rk[j]);
        if j < height {
          CanonBeforeToNew(order, hs, r, x, height, j, p);
        } else {
          CanonBeforeOver(order, hs, r, x, height, j, p);
        }
      } else {
        var c: nat := rk[j];
        if p < c {
          NextAtFirst(hs, j, p, c);
        } else {
          NextAtFirst(hs, j, c, p);
          assert false;
        }
        CanonBeforeUnchanged(order, hs, r, x, height, j, p);
      }
    }
  }

  /** Entries after the insertion point are canonical at their new positions. */
  lemma EntryAfter(nodes: seq<Node>, order: seq<nat>, lv: int, height: int,
                   u: seq<int>, rk: seq<int>, r: nat, nodes': seq<Node>, q: nat, j: nat)
    requires LinkStep(nodes, order, lv, height, u, rk, r, nodes')
    requires r + 1 < q <= |order| + 1 && j < |nodes[At(order, q - 1)].level|
    ensures nodes'[At(order, q - 1)].level[j] ==
      Canon(OrderInserted(order, r, |order| + 1), Inserted(Heights(nodes, order), r, height), j, q)
  {
    var n, x, hs := |order|, |order| + 1, Heights(nodes, order);
    var p := q - 1;
    var a := At(order, p);
    assert j < lv;
    if a == u[j] {
      AtInjective(nodes, order, lv, p, rk[j]);
      assert false;
    }
    assert nodes'[a].level[j] == nodes[a].level[j] == Canon(order, hs, j, p);
    CanonAfter(order, hs, r, x, height, j, q);
  }

  /** Inserting the fresh index |order| + 1 keeps every index listed once. */
  lemma InsertedDistinct(nodes: seq<Node>, order: seq<nat>, lv: int, r: nat, o': seq<nat>)
    requires Shape(nodes, order, lv) && r <= |order| && o' == OrderInserted(order, r, |order| + 1)
    ensures forall k :: 0 <= k < |o'| ==> PosIn(o', o'[k]) == k
  {
    forall k | 0 <= k < |o'| ensures PosIn(o', o'[k]) == k {
      forall m | k < m < |o'| ensures o'[m] != o'[k] {
        if k != r && m != r {
          OrderDistinct(nodes, order, lv, if k < r then k else k - 1, if m < r then m else m - 1);
        }
      }
      PosInLast(o', o'[k], k);
    }
  }

  /** The arena after the splice has the shape of a list one node longer. */
  lemma ShapeAfterInsert(nodes: seq<Node>, order: seq<nat>, lv: int, height: int,
                         r: nat, score: int, value: ComparatorUtil.Value, nodes': seq<Node>)
    requires Shape(nodes, order, lv) && 1 <= height <= MAX_LEVEL && r <= |order|
    requires Grown(nodes, order, height, nodes')
    requires SplicedFields(nodes, order, score, value, r, nodes')
    ensures Shape(nodes', OrderInserted(order, r, |order| + 1), Max(lv, height))
  {
    var n, x := |order|, |order| + 1;
    var o' := OrderInserted(order, r, x);
    assert forall k :: 0 <= k < |o'| ==> o'[k] == At(o', k + 1);
    forall k | 0 <= k < |o'| ensures 1 <= o'[k] <= |o'| && 1 <= |nodes'[o'[k]].level| <= Max(lv, height) {
      if k < r {
        assert o'[k] == order[k];
      } else if k > r {
        assert o'[k] == order[k - 1];
      }
    }
    InsertedDistinct(nodes, order, lv, r, o');
  }

  /** Any level entry in use after the splice is canonical. */
  lemma EntryAfterSplice(nodes: seq<Node>, order: seq<nat>, lv: int, height: int,
                         u: seq<int>, rk: seq<int>, r: nat, nodes': seq<Node>, p: nat, j: nat)
    requires LinkStep(nodes, order, lv, height, u, rk, r, nodes')
    requires p <= |order| + 1 && j < Max(lv, height)
    requires j < |nodes'[At(OrderInserted(order, r, |order| + 1), p)].level|
    ensures nodes'[At(OrderInserted(order, r, |order| + 1), p)].level[j] ==
      Canon(OrderInserted(order, r, |order| + 1), Inserted(Heights(nodes, order), r, height), j, p)
  {
    var o' := OrderInserted(order, r, |order| + 1);
    if p <= r {
      assert At(o', p) == At(order, p);
      EntryBefore(nodes, order, lv, height, u, rk, r, nodes', p, j);
    } else if p == r + 1 {
      assert At(o', p) == |order| + 1;
      EntryOfNew(nodes, order, lv, height, u, rk, r, nodes', j);
    } else {
      var a := At(order, p - 1);
      assert At(o', p) == a && 1 <= a <= |order|;
      assert |nodes'[a].level| == |nodes[a].level|;
      EntryAfter(nodes, order, lv, height, u, rk, r, nodes', p, j);
    }
  }

  /** Every level entry in use after the splice is canonical. */
  lemma LinksAfterInsert(nodes: seq<Node>, order: seq<nat>, lv: int, height: int,
                         u: seq<int>, rk: seq<int>, r: nat, nodes': seq<Node>)
    requires LinkStep(nodes, order, lv, height, u, rk, r, nodes')
    requires Shape(nodes', OrderInserted(order, r, |order| + 1), Max(lv, height))
    ensures Links(nodes', OrderInserted(order, r, |order| + 1), Max(lv, height))
  {
    var x := |order| + 1;
    var o' := OrderInserted(order, r, x);
    var top := Max(lv, height);
    HeightsInserted(nodes, order, height, r, nodes');
    forall p, j | 0 <= p <= |o'| && 0 <= j < top && j < |nodes'[At(o', p)].level|
      ensures nodes'[At(o', p)].level[j] == Canon(o', Inserted(Heights(nodes, order), r, height), j, p)
    {
      EntryAfterSplice(nodes, order, lv, height, u, rk, r, nodes', p, j);
    }
    forall j | top <= j < MAX_LEVEL ensures nodes'[0].level[j] == Level(NIL, 0) {
      assert nodes'[0].level[j] == Edited(nodes[0].level[j], 0, j, top, height, u, rk, r, x);
    }
  }

  /** The new node sits between the nodes the descent ruled before and after it. */
  lemma SortedAfterInsert(tieBreak: bool, nodes: seq<Node>, order: seq<nat>, r: nat,
                          score: int, value: ComparatorUtil.Value, nodes': seq<Node>)
    requires |nodes| == |order| + 1 && r <= |order| && |nodes'| == |order| + 2
    requires forall k :: 0 <= k < |order| ==> 1 <= order[k] <= |order|
    requires Sorted(tieBreak, nodes, order)
    requires DescentVerdicts(tieBreak, nodes, order, score, value, r)
    requires SplicedFields(nodes, order, score, value, r, nodes')
    ensures InArena(nodes', OrderInserted(order, r, |order| + 1))
    ensures Sorted(tieBreak, nodes', OrderInserted(order, r, |order| + 1))
  {
    var n, x := |order|, |order| + 1;
    var o' := OrderInserted(order, r, x);
    assert forall k :: 0 <= k < |o'| ==> o'[k] == At(o', k + 1);
    assert forall k :: 0 <= k < |o'| ==> o'[k] < |nodes'|;
    var m := nodes'[x];
    assert m.score == score && m.value == value;
    if r > 0 {
      PrecedesOrder(tieBreak, nodes[order[r - 1]], m);
    }
    if r < n {
      PrecedesOrder(tieBreak, nodes[order[r]], m);
    }
    forall k, k2 | 0 <= k < k2 < |o'|
      ensures KeyLe(tieBreak, nodes'[o'[k]], nodes'[o'[k2]])
    {
      var ik := if k < r then k else k - 1;
      var ik2 := if k2 < r then k2 else k2 - 1;
      if k != r && k2 != r {
        assert o'[k] == order[ik] && o'[k2] == order[ik2];
        assert KeyLe(tieBreak, nodes[order[ik]], nodes[order[ik2]]);
      } else if k2 == r {
        assert o'[k] == order[k] && o'[k2] == x;
        if k < r - 1 {
          assert KeyLe(tieBreak, nodes[order[k]], nodes[order[r - 1]]);
          KeyLeTransitive(tieBreak, nodes[order[k]], nodes[order[r - 1]], m);
        }
      } else {
        assert o'[k] == x && o'[k2] == order[k2 - 1];
        if k2 - 1 > r {
          assert KeyLe(tieBreak, nodes[order[r]], nodes[order[k2 - 1]]);
          KeyLeTransitive(tieBreak, m, nodes[order[r]], nodes[order[k2 - 1]]);
        }
      }
    }
  }

  /** Backward links and the tail after the splice. */
  lemma BackwardAfterInsert(nodes: seq<Node>, order: seq<nat>, lv: int, r: nat,
                            score: int, value: ComparatorUtil.Value, nodes': seq<Node>)
    requires Shape(nodes, order, lv) && Backward(nodes, order) && r <= |order| && |nodes'| == |order| + 2
    requires SplicedFields(nodes, order, score, value, r, nodes')
    ensures InArena(nodes', OrderInserted(order, r, |order| + 1))
    ensures Backward(nodes', OrderInserted(order, r, |order| + 1))
  {
    var n, x := |order|, |order| + 1;
    var o' := OrderInserted(order, r, x);
    assert forall k :: 0 <= k < |o'| ==> o'[k] == At(o', k + 1);
    forall k | 0 <= k < |o'| ensures nodes'[o'[k]].backward == (if k == 0 then NIL else o'[k - 1]) {
      if k < r {
        assert o'[k] == order[k];
        if k > 0 { assert o'[k - 1] == order[k - 1]; }
        if r < n { OrderDistinct(nodes, order, lv, k, r); }
      } else if k == r {
        assert o'[k] == x;
        if r > 0 { assert o'[r - 1] == order[r - 1]; }
      } else {
        assert o'[k] == order[k - 1];
        if k > r + 1 {
          assert o'[k - 1] == order[k - 2];
          OrderDistinct(nodes, order, lv, k - 1, r);
        } else {
          assert o'[k - 1] == x;
        }
      }
    }
    assert Backward(nodes', o');
  }

  /**
   * The splice keeps the list well formed: the new node is at index `r` of
   * the level-0 order, every level's links and spans are canonical again,
   * `level` is raised to the new node's height and `tail` moves to the new
   * node exactly when it went last.
   */
  lemma InsertWellFormed(tieBreak: bool, nodes: seq<Node>, order: seq<nat>, lv: int, tail: int, height: int,
                         u: seq<int>, rk: seq<int>, r: nat, score: int, value: ComparatorUtil.Value, nodes': seq<Node>)
    requires WellFormed(tieBreak, nodes, order, lv, tail)
    requires 1 <= height <= MAX_LEVEL
    requires DescentPath(nodes, order, Max(lv, height), u, rk, r)
    requires DescentVerdicts(tieBreak, nodes, order, score, value, r)
    requires Grown(nodes, order, height, nodes')
    requires SplicedLinks(nodes, order, lv, height, u, rk, r, nodes')
    requires SplicedFields(nodes, order, score, value, r, nodes')
    ensures WellFormed(tieBreak, nodes', OrderInserted(order, r, |order| + 1), Max(lv, height),
                       if r == |order| then |order| + 1 else tail)
  {
    ShapeAfterInsert(nodes, order, lv, height, r, score, value, nodes');
    LinksAfterInsert(nodes, order, lv, height, u, rk, r, nodes');
    BackwardAfterInsert(nodes, order, lv, r, score, value, nodes');
    SortedAfterInsert(tieBreak, nodes, order, r, score, value, nodes');
    var o' := OrderInserted(order, r, |order| + 1);
    assert o'[|o'| - 1] == At(o', |o'|);
  }

  // ---------------------------------------------------------------------------
  // Reading one entry, and the walk along one level

  /** A level entry of a well-formed list names its successor on that level, or null at the end. */
  lemma Step(nodes: seq<Node>, order: seq<nat>, level: int, p: nat, j: nat)
    requires Shape(nodes, order, level) && Links(nodes, order, level)
    requires p <= |order| && j < level && j < |nodes[At(order, p)].level|
    ensures nodes[At(order, p)].level[j] == Canon(order, Heights(nodes, order), j, p)
    ensures nodes[At(order, p)].level[j].forward == NIL <==> NextAt(Heights(nodes, order), j, p) == |order| + 1
    ensures nodes[At(order, p)].level[j].forward != NIL ==>
      && nodes[At(order, p)].level[j].forward == At(order, NextAt(Heights(nodes, order), j, p))
      && nodes[At(order, p)].level[j].span == NextAt(Heights(nodes, order), j, p) - p
      && j < |nodes[nodes[At(order, p)].level[j].forward].level|
  {
  }

  /**
   * The walk on level `j` stands at position `q`: the node there (if any)
   * precedes the new key, and `bound`, a later node on level `j` or the end,
   * does not.
   */
  ghost predicate Scanning(tieBreak: bool, nodes: seq<Node>, order: seq<nat>, level: int, j: nat, q: nat, bound: nat,
                           score: int, value: ComparatorUtil.Value)
  {
    && Shape(nodes, order, level) && Links(nodes, order, level)
    && j < level && q < bound <= |order| + 1 && j < |nodes[At(order, q)].level|
    && (q > 0 ==> Precedes(tieBreak, nodes[order[q - 1]], score, value) == Ahead)
    && (bound <= |order| ==>
          Heights(nodes, order)[bound - 1] > j && Precedes(tieBreak, nodes[order[bound - 1]], score, value) == NotAhead)
  }

  /**
   * One move of the walk: the forward link names the successor on level `j`,
   * the span is the distance to it, and a successor that precedes the new
   * key is a valid place to stand.
   */
  lemma ScanMove(tieBreak: bool, nodes: seq<Node>, order: seq<nat>, level: int, j: nat, q: nat, bound: nat,
                 score: int, value: ComparatorUtil.Value)
    requires Scanning(tieBreak, nodes, order, level, j, q, bound, score, value)
    requires nodes[At(order, q)].level[j].forward != NIL
    ensures q < NextAt(Heights(nodes, order), j, q) <= |order|
    ensures nodes[At(order, q)].level[j].forward == order[NextAt(Heights(nodes, order), j, q) - 1]
    ensures nodes[At(order, q)].level[j].span == NextAt(Heights(nodes, order), j, q) - q
    ensures Precedes(tieBreak, nodes[nodes[At(order, q)].level[j].forward], score, value) == Ahead ==>
      Scanning(tieBreak, nodes, order, level, j, NextAt(Heights(nodes, order), j, q), bound, score, value)
  {
    var hs := Heights(nodes, order);
    Step(nodes, order, level, q, j);
    if bound <= |order| {
      NextAtFirst(hs, j, q, bound);
    }
  }

  /**
   * The walk on level `j` ended at `q`: its successor `next` on level `j`
   * lies at or before `bound` and, unless it is the end, does not precede
   * the new key.
   */
  ghost predicate ScanDone(tieBreak: bool, nodes: seq<Node>, order: seq<nat>, level: int, j: nat, q: nat, bound: nat,
                           next: nat, score: int, value: ComparatorUtil.Value)
  {
    && Scanning(tieBreak, nodes, order, level, j, q, bound, score, value)
    && next == NextAt(Heights(nodes, order), j, q) <= bound
    && (next <= |order| ==>
          Heights(nodes, order)[next - 1] > j && Precedes(tieBreak, nodes[order[next - 1]], score, value) == NotAhead)
  }

  /** Where the walk stops: its successor on level `j` does not precede the new key, or there is none. */
  lemma ScanEnd(tieBreak: bool, nodes: seq<Node>, order: seq<nat>, level: int, j: nat, q: nat, bound: nat,
                score: int, value: ComparatorUtil.Value)
    requires Scanning(tieBreak, nodes, order, level, j, q, bound, score, value)
    requires nodes[At(order, q)].level[j].forward != NIL ==>
      Precedes(tieBreak, nodes[nodes[At(order, q)].level[j].forward], score, value) == NotAhead
    ensures ScanDone(tieBreak, nodes, order, level, j, q, bound, NextAt(Heights(nodes, order), j, q), score, value)
  {
    var hs := Heights(nodes, order);
    Step(nodes, order, level, q, j);
    if bound <= |order| {
      NextAtFirst(hs, j, q, bound);
    }
  }

  /** Some stored node's test throws `e`, which ends the insertion. */
  ghost predicate Throwing(tieBreak: bool, nodes: seq<Node>, order: seq<nat>, score: int, value: ComparatorUtil.Value,
                           e: ComparatorUtil.CompareError)
  {
    exists k :: 0 <= k < |order| && order[k] < |nodes| && Precedes(tieBreak, nodes[order[k]], score, value) == Throws(e)
  }

  /** In score order only (the `Integer` list) the descent's test never throws. */
  lemma ScoreOrderNeverThrows(nodes: seq<Node>, order: seq<nat>, score: int, value: ComparatorUtil.Value,
                              e: ComparatorUtil.CompareError)
    ensures !Throwing(false, nodes, order, score, value, e)
  {
    forall k | 0 <= k < |order| && order[k] < |nodes|
      ensures !Precedes(false, nodes[order[k]], score, value).Throws?
    {
      ScoreOnlyPrecedes(nodes[order[k]], score, value);
    }
  }

  /** A test that throws on the successor of the walk throws on a stored node. */
  lemma ScanThrows(tieBreak: bool, nodes: seq<Node>, order: seq<nat>, level: int, j: nat, q: nat, bound: nat,
                   score: int, value: ComparatorUtil.Value, e: ComparatorUtil.CompareError)
    requires Scanning(tieBreak, nodes, order, level, j, q, bound, score, value)
    requires nodes[At(order, q)].level[j].forward != NIL
    requires Precedes(tieBreak, nodes[nodes[At(order, q)].level[j].forward], score, value) == Throws(e)
    ensures Throwing(tieBreak, nodes, order, score, value, e)
  {
    var n := NextAt(Heights(nodes, order), j, q);
    Step(nodes, order, level, q, j);
    assert Precedes(tieBreak, nodes[order[n - 1]], score, value) == Throws(e);
  }

  /**
   * Levels `i + 1 .. top - 1` of the descent are done: each `update[j]` is
   * the node at position `rank[j]`, at or before `px`, and has no successor
   * on level `j` before `bound`.
   */
  ghost predicate PathAbove(nodes: seq<Node>, order: seq<nat>, hs: seq<nat>, u: seq<int>, rk: seq<int>,
                            i: int, top: int, px: nat, bound: nat)
    requires InArena(nodes, order) && |nodes| > 0 && |hs| == |order|
    requires |u| == MAX_LEVEL && |rk| == MAX_LEVEL && -1 <= i < top <= MAX_LEVEL && px <= |order|
  {
    forall j :: i < j < top ==>
      && 0 <= rk[j] <= px
      && u[j] == At(order, rk[j])
      && j < |nodes[u[j]].level|
      && bound <= NextAt(hs, j, rk[j])
  }

  /** Finishing level `i` at position `px'`, with successor `NextAt(hs, i, px')`, extends the path. */
  lemma PathExtend(nodes: seq<Node>, order: seq<nat>, hs: seq<nat>, u: seq<int>, rk: seq<int>,
                   i: nat, top: int, px: nat, bound: nat, px': nat)
    requires InArena(nodes, order) && |nodes| > 0 && |hs| == |order|
    requires |u| == MAX_LEVEL && |rk| == MAX_LEVEL && i < top <= MAX_LEVEL
    requires px <= px' < bound <= |order| + 1 && i < |nodes[At(order, px')].level|
    requires PathAbove(nodes, order, hs, u, rk, i, top, px, bound)
    requires NextAt(hs, i, px') <= bound
    ensures PathAbove(nodes, order, hs, u[i := At(order, px')], rk[i := px'], i - 1, top, px', NextAt(hs, i, px'))
  {
  }

  /**
   * The descent between levels: levels `i + 1 .. top - 1` are done, it
   * stands at position `px` (at the header until a node precedes the new
   * key), each finished level's `update[j]` lies at or before `px` with no
   * node of level `j` before `bound`, and `bound` does not precede the key.
   */
  ghost predicate Descending(tieBreak: bool, nodes: seq<Node>, order: seq<nat>, top: int, u: seq<int>, rk: seq<int>,
                             i: int, px: nat, bound: nat, score: int, value: ComparatorUtil.Value)
  {
    && Shape(nodes, order, top) && Links(nodes, order, top)
    && |u| == MAX_LEVEL && |rk| == MAX_LEVEL && -1 <= i < top
    && px < bound <= |order| + 1
    && (i >= 0 ==> i < |nodes[At(order, px)].level|)
    && (i == top - 1 ==> px == 0)
    && (i + 1 < top ==> rk[i + 1] == px)
    && (px > 0 ==> Precedes(tieBreak, nodes[order[px - 1]], score, value) == Ahead)
    && (bound <= |order| ==>
          Heights(nodes, order)[bound - 1] > i + 1 && Precedes(tieBreak, nodes[order[bound - 1]], score, value) == NotAhead)
    && (i == -1 ==> bound == px + 1)
    && PathAbove(nodes, order, Heights(nodes, order), u, rk, i, top, px, bound)
  }

  /** A level still to do starts a walk from where the descent stands. */
  lemma DescendScan(tieBreak: bool, nodes: seq<Node>, order: seq<nat>, top: int, u: seq<int>, rk: seq<int>,
                    i: nat, px: nat, bound: nat, score: int, value: ComparatorUtil.Value)
    requires Descending(tieBreak, nodes, order, top, u, rk, i, px, bound, score, value)
    ensures Scanning(tieBreak, nodes, order, top, i, px, bound, score, value)
    ensures (if i == top - 1 then 0 else rk[i + 1]) == px
  {
  }

  /** A walk on level `i` that ends at `px'` with successor `next` finishes that level. */
  lemma DescendStep(tieBreak: bool, nodes: seq<Node>, order: seq<nat>, top: int, u: seq<int>, rk: seq<int>,
                    i: nat, px: nat, bound: nat, score: int, value: ComparatorUtil.Value, px': nat, next: nat)
    requires Descending(tieBreak, nodes, order, top, u, rk, i, px, bound, score, value)
    requires px <= px' && ScanDone(tieBreak, nodes, order, top, i, px', bound, next, score, value)
    ensures Descending(tieBreak, nodes, order, top, u[i := At(order, px')], rk[i := px'], i - 1, px', next, score, value)
  {
    var hs := Heights(nodes, order);
    PathExtend(nodes, order, hs, u, rk, i, top, px, bound, px');
    if i == 0 && px' < |order| {
      assert hs[px'] >= 1;
    }
  }

  /** The finished descent: `rank[0]` is the insertion point, with the path and the verdicts there. */
  lemma DescendDone(tieBreak: bool, nodes: seq<Node>, order: seq<nat>, top: int, u: seq<int>, rk: seq<int>,
                    px: nat, bound: nat, score: int, value: ComparatorUtil.Value)
    requires Descending(tieBreak, nodes, order, top, u, rk, -1, px, bound, score, value)
    ensures 0 <= rk[0] <= |order|
    ensures DescentPath(nodes, order, top, u, rk, rk[0])
    ensures DescentVerdicts(tieBreak, nodes, order, score, value, rk[0])
  {
  }

  // ---------------------------------------------------------------------------
  // Stored keys

  /** The (score, value) pairs in level-0 order. */
  function KeysOf(nodes: seq<Node>, order: seq<nat>): (ks: seq<(int, ComparatorUtil.Value)>)
    requires InArena(nodes, order)
    ensures |ks| == |order|
    ensures forall k :: 0 <= k < |order| ==> ks[k] == (nodes[order[k]].score, nodes[order[k]].value)
  {
    seq(|order|, k requires 0 <= k < |order| => (nodes[order[k]].score, nodes[order[k]].value))
  }

  /**
   * The list after an insertion of (score, value) with `height` levels at
   * position `r`: arena index `x` is the new node, `order` and the keys gain
   * it at position `r`, the levels in use grow to cover it.
   */
  ghost predicate Added(nodes: seq<Node>, order: seq<nat>, level: int,
                        nodes': seq<Node>, order': seq<nat>, level': int,
                        score: int, value: ComparatorUtil.Value, height: int, r: nat, x: nat)
    requires InArena(nodes, order) && InArena(nodes', order')
  {
    && x == |nodes| && |nodes'| == |nodes| + 1 && r <= |order|
    && order' == order[..r] + [x] + order[r..]
    && (forall a :: 0 <= a < |nodes| ==> nodes'[a].score == nodes[a].score && nodes'[a].value == nodes[a].value)
    && (forall a :: 0 <= a < |nodes| ==> |nodes'[a].level| == |nodes[a].level|)
    && level' == Max(level, height)
    && nodes'[x].score == score && nodes'[x].value == value && |nodes'[x].level| == height
  }

  /** The insertion's outcome: the new list is well-formed and holds exactly one more key. */
  lemma InsertAdded(tieBreak: bool, nodes: seq<Node>, order: seq<nat>, lv: int, tail: int, height: int,
                    u: seq<int>, rk: seq<int>, r: nat, score: int, value: ComparatorUtil.Value,
                    nodes': seq<Node>, order': seq<nat>, lv': int, tail': int, x: nat)
    requires WellFormed(tieBreak, nodes, order, lv, tail)
    requires 1 <= height <= MAX_LEVEL
    requires DescentPath(nodes, order, Max(lv, height), u, rk, r)
    requires DescentVerdicts(tieBreak, nodes, order, score, value, r)
    requires Grown(nodes, order, height, nodes')
    requires SplicedLinks(nodes, order, lv, height, u, rk, r, nodes')
    requires SplicedFields(nodes, order, score, value, r, nodes')
    requires x == |order| + 1 && order' == OrderInserted(order, r, x)
    requires lv' == Max(lv, height) && tail' == if r == |order| then x else tail
    ensures WellFormed(tieBreak, nodes', order', lv', tail')
    ensures Added(nodes, order, lv, nodes', order', lv', score, value, height, r, x)
  {
    InsertWellFormed(tieBreak, nodes, order, lv, tail, height, u, rk, r, score, value, nodes');
    assert order' == order[..r] + [x] + order[r..];
  }

  /** An insertion adds exactly the new pair to the keys, at index `r`. */
  lemma AddedKeys(nodes: seq<Node>, order: seq<nat>, level: int, nodes': seq<Node>, order': seq<nat>, level': int,
                  score: int, value: ComparatorUtil.Value, height: int, r: nat, x: nat)
    requires InArena(nodes, order) && InArena(nodes', order')
    requires Added(nodes, order, level, nodes', order', level', score, value, height, r, x)
    ensures KeysOf(nodes', order') == KeysOf(nodes, order)[..r] + [(score, value)] + KeysOf(nodes, order)[r..]
  {
    var ks := KeysOf(nodes, order);
    var lhs, rhs := KeysOf(nodes', order'), ks[..r] + [(score, value)] + ks[r..];
    forall k | 0 <= k < |order'| ensures lhs[k] == rhs[k] {
      if k < r {
        assert order'[k] == order[k];
      } else if k > r {
        assert order'[k] == order[k - 1];
      }
    }
  }

  // ---------------------------------------------------------------------------
  // Looking up a score

  /**
   * Where the descent stops in score order, the next node is the first with
   * a score not below `score`; so some stored node has that score exactly
   * when the next node has it.
   */
  lemma {:induction false} ScoreAtStop(tieBreak: bool, nodes: seq<Node>, order: seq<nat>, r: nat, score: int)
    requires InArena(nodes, order) && Sorted(tieBreak, nodes, order) && r <= |order|
    requires r > 0 ==> nodes[order[r - 1]].score < score
    requires r < |order| ==> nodes[order[r]].score >= score
    ensures (exists k :: 0 <= k < |order| && nodes[order[k]].score == score) <==>
      r < |order| && nodes[order[r]].score == score
  {
    forall k | 0 <= k < r - 1
      ensures nodes[order[k]].score < score
    {
      assert KeyLe(tieBreak, nodes[order[k]], nodes[order[r - 1]]);
    }
    forall k | r < k < |order|
      ensures nodes[order[k]].score >= nodes[order[r]].score
    {
      assert KeyLe(tieBreak, nodes[order[r]], nodes[order[k]]);
    }
  }

  /** On level 0 every position leads to the next stored node, or to null after the last. */
  lemma LevelZeroNext(nodes: seq<Node>, order: seq<nat>, level: int, p: nat)
    requires Shape(nodes, order, level) && Links(nodes, order, level) && p <= |order|
    ensures At(order, p) < |nodes| && 0 < |nodes[At(order, p)].level|
    ensures nodes[At(order, p)].level[0].forward == if p < |order| then order[p] else NIL
  {
    Step(nodes, order, level, p, 0);
    if p < |order| {
      NextAtUnique(Heights(nodes, order), 0, p, p + 1);
    }
  }

  /** The level-0 successor of the descent's stop decides the search. */
  lemma LookupStop(tieBreak: bool, nodes: seq<Node>, order: seq<nat>, level: int, tail: int,
                   u: seq<int>, rk: seq<int>, r: nat, score: int)
    requires WellFormed(tieBreak, nodes, order, level, tail)
    requires DescentPath(nodes, order, level, u, rk, r)
    requires DescentVerdicts(false, nodes, order, score, ComparatorUtil.Null, r)
    ensures 0 <= u[0] < |nodes| && 0 < |nodes[u[0]].level|
    ensures var f := nodes[u[0]].level[0].forward;
      (f != NIL && 0 <= f < |nodes| && nodes[f].score == score) <==>
      exists k :: 0 <= k < |order| && nodes[order[k]].score == score
  {
    LevelZeroNext(nodes, order, level, r);
    ScoreAtStop(tieBreak, nodes, order, r, score);
  }
}
