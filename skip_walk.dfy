/**
 * Walking one level of a well-formed list by its forward links, as a reader
 * of the Java lists does: the walk from the header meets the nodes of that
 * level in key order, ends at a null link, adds up its spans to the length,
 * and on level 0 meets every stored node.
 */
module SkipWalk {
  import opened SkipNode
  import opened SkipSpec
  import opened SkipLemmas

  /** The level-`j` entry of the node at position `p` leads on to a later position. */
  predicate Leads(nodes: seq<Node>, order: seq<nat>, j: nat, p: nat)
    requires p <= |order|
  {
    var a := At(order, p);
    && a < |nodes| && j < |nodes[a].level|
    && nodes[a].level[j].forward >= 0
    && 0 < nodes[a].level[j].span <= |order| - p
  }

  /**
   * The arena indices met by following level-`j` forward links from
   * position `p` until a null link. The next position is `p` plus the span
   * of the entry followed.
   */
  ghost function Chain(nodes: seq<Node>, order: seq<nat>, j: nat, p: nat): seq<nat>
    requires p <= |order|
    decreases |order| - p
  {
    if Leads(nodes, order, j, p) then
      var e := nodes[At(order, p)].level[j];
      [e.forward as nat] + Chain(nodes, order, j, p + e.span)
    else []
  }

  /** The spans of the entries the same walk follows, the last one included, added up. */
  ghost function SpanSum(nodes: seq<Node>, order: seq<nat>, j: nat, p: nat): int
    requires p <= |order|
    decreases |order| - p
  {
    var a := At(order, p);
    if Leads(nodes, order, j, p) then nodes[a].level[j].span + SpanSum(nodes, order, j, p + nodes[a].level[j].span)
    else if a < |nodes| && j < |nodes[a].level| then nodes[a].level[j].span
    else 0
  }

  /** One step of the walk in a well-formed list: to the successor on level `j`, or nowhere at the end. */
  lemma WalkStep(nodes: seq<Node>, order: seq<nat>, level: int, j: nat, p: nat)
    requires Shape(nodes, order, level) && Links(nodes, order, level)
    requires p <= |order| && j < level && j < |nodes[At(order, p)].level|
    ensures var q := NextAt(Heights(nodes, order), j, p);
      && (Leads(nodes, order, j, p) <==> q <= |order|)
      && (q > |order| ==> nodes[At(order, p)].level[j] == Level(NIL, |order| - p))
      && (q <= |order| ==>
            && nodes[At(order, p)].level[j] == Level(order[q - 1], q - p)
            && j < |nodes[order[q - 1]].level|)
  {
    Step(nodes, order, level, p, j);
  }

  /** The spans from position `p` to the end of a level add up to the nodes after `p`; from the header, to the length. */
  lemma {:induction false} SpansAddUp(nodes: seq<Node>, order: seq<nat>, level: int, j: nat, p: nat)
    requires Shape(nodes, order, level) && Links(nodes, order, level)
    requires p <= |order| && j < level && j < |nodes[At(order, p)].level|
    ensures SpanSum(nodes, order, j, p) == |order| - p
    decreases |order| - p
  {
    WalkStep(nodes, order, level, j, p);
    var q := NextAt(Heights(nodes, order), j, p);
    if q <= |order| {
      SpansAddUp(nodes, order, level, j, q);
    }
  }

  /** Each position before the last leads on level 0 to the next one. */
  ghost predicate StepsByOne(nodes: seq<Node>, order: seq<nat>)
  {
    forall p {:trigger At(order, p)} :: 0 <= p < |order| ==>
      && At(order, p) < |nodes| && 0 < |nodes[At(order, p)].level|
      && nodes[At(order, p)].level[0] == Level(order[p], 1)
  }

  /** In a well-formed list every level-0 entry leads to the next position. */
  lemma LevelZeroStepsByOne(nodes: seq<Node>, order: seq<nat>, level: int)
    requires Shape(nodes, order, level) && Links(nodes, order, level)
    ensures StepsByOne(nodes, order)
  {
    forall p | 0 <= p < |order|
      ensures At(order, p) < |nodes| && 0 < |nodes[At(order, p)].level|
      ensures nodes[At(order, p)].level[0] == Level(order[p], 1)
    {
      WalkStep(nodes, order, level, 0, p);
      NextAtUnique(Heights(nodes, order), 0, p, p + 1);
    }
  }

  /** On level 0 the walk from position `p` meets the stored nodes after it, one by one. */
  lemma {:induction false} ChainLevelZero(nodes: seq<Node>, order: seq<nat>, p: nat, c: seq<nat>)
    requires StepsByOne(nodes, order)
    requires p <= |order| && c == Chain(nodes, order, 0, p)
    ensures |c| == |order| - p && forall b :: 0 <= b < |c| ==> c[b] == order[p + b]
    decreases |order| - p
  {
    if p < |order| {
      assert At(order, p) < |nodes|;
      var c' := Chain(nodes, order, 0, p + 1);
      ChainLevelZero(nodes, order, p + 1, c');
      assert c == [order[p]] + c';
      forall b | 0 < b < |c| ensures c[b] == order[p + b] {
        assert c[b] == c'[b - 1];
      }
    }
  }

  /** The level-0 walk from the header meets exactly the stored nodes, in order. */
  lemma LevelZeroIsOrder(nodes: seq<Node>, order: seq<nat>, level: int)
    requires Shape(nodes, order, level) && Links(nodes, order, level)
    ensures Chain(nodes, order, 0, 0) == order
  {
    LevelZeroStepsByOne(nodes, order, level);
    ChainLevelZero(nodes, order, 0, Chain(nodes, order, 0, 0));
  }

  /** Every level-`j` entry that leads on names the stored node at the position its span reaches. */
  ghost predicate LeadsToSpan(nodes: seq<Node>, order: seq<nat>, j: nat)
  {
    forall p {:trigger At(order, p)} :: 0 <= p <= |order| && Leads(nodes, order, j, p) ==>
      nodes[At(order, p)].level[j].forward == order[p + nodes[At(order, p)].level[j].span - 1]
  }

  /** In a well-formed list every level in use leads by its spans. */
  lemma LinksLeadToSpan(nodes: seq<Node>, order: seq<nat>, level: int, j: nat)
    requires Shape(nodes, order, level) && Links(nodes, order, level) && j < level
    ensures LeadsToSpan(nodes, order, j)
  {
    forall p | 0 <= p <= |order| && Leads(nodes, order, j, p)
      ensures nodes[At(order, p)].level[j].forward == order[p + nodes[At(order, p)].level[j].span - 1]
    {
      WalkStep(nodes, order, level, j, p);
    }
  }

  /** The walk meets stored nodes after position `p`, at increasing positions. */
  lemma {:induction false} ChainBeyond(nodes: seq<Node>, order: seq<nat>, j: nat, p: nat, c: seq<nat>)
    requires LeadsToSpan(nodes, order, j)
    requires forall k {:trigger PosIn(order, order[k])} :: 0 <= k < |order| ==> PosIn(order, order[k]) == k
    requires p <= |order| && c == Chain(nodes, order, j, p)
    ensures forall b :: 0 <= b < |c| ==> p <= PosIn(order, c[b]) < |order| && order[PosIn(order, c[b])] == c[b]
    ensures forall a, b :: 0 <= a < b < |c| ==> PosIn(order, c[a]) < PosIn(order, c[b])
    decreases |order| - p
  {
    if Leads(nodes, order, j, p) {
      var q := p + nodes[At(order, p)].level[j].span;
      var c' := Chain(nodes, order, j, q);
      ChainBeyond(nodes, order, j, q, c');
      assert c == [order[q - 1]] + c';
      assert PosIn(order, order[q - 1]) == q - 1;
      forall b | 0 < b < |c| ensures c[b] == c'[b - 1] && q <= PosIn(order, c[b]) {
        assert c[b] == c'[b - 1];
      }
    }
  }

  /** Every level, walked by its forward links, is ordered by key. */
  lemma ChainSorted(tieBreak: bool, nodes: seq<Node>, order: seq<nat>, level: int, tail: int,
                    j: nat, p: nat, c: seq<nat>)
    requires WellFormed(tieBreak, nodes, order, level, tail)
    requires p <= |order| && j < level
    requires c == Chain(nodes, order, j, p)
    ensures forall a, b :: 0 <= a < b < |c| ==> c[a] < |nodes| && c[b] < |nodes| && KeyLe(tieBreak, nodes[c[a]], nodes[c[b]])
  {
    LinksLeadToSpan(nodes, order, level, j);
    ChainBeyond(nodes, order, j, p, c);
    forall a, b | 0 <= a < b < |c|
      ensures c[a] < |nodes| && c[b] < |nodes| && KeyLe(tieBreak, nodes[c[a]], nodes[c[b]])
    {
      var ma, mb := PosIn(order, c[a]), PosIn(order, c[b]);
      assert KeyLe(tieBreak, nodes[order[ma]], nodes[order[mb]]);
    }
  }

  /** The last node met on a level has no successor there. */
  lemma {:induction false} ChainEnds(nodes: seq<Node>, order: seq<nat>, level: int, j: nat, p: nat, c: seq<nat>)
    requires Shape(nodes, order, level) && Links(nodes, order, level)
    requires p <= |order| && j < level && j < |nodes[At(order, p)].level|
    requires c == Chain(nodes, order, j, p)
    ensures |c| > 0 ==> c[|c| - 1] < |nodes| && j < |nodes[c[|c| - 1]].level| && nodes[c[|c| - 1]].level[j].forward == NIL
    decreases |order| - p
  {
    WalkStep(nodes, order, level, j, p);
    var q := NextAt(Heights(nodes, order), j, p);
    if q <= |order| {
      var c' := Chain(nodes, order, j, q);
      ChainEnds(nodes, order, level, j, q, c');
      if c' == [] {
        WalkStep(nodes, order, level, j, q);
      }
    }
  }

  /** The tail is the last node on every level it reaches: each of its entries is null with span 0. */
  lemma TailEnds(tieBreak: bool, nodes: seq<Node>, order: seq<nat>, level: int, tail: int)
    requires WellFormed(tieBreak, nodes, order, level, tail) && |order| > 0
    ensures 0 < tail < |nodes|
    ensures forall j :: 0 <= j < |nodes[tail].level| ==> nodes[tail].level[j] == Level(NIL, 0)
  {
    forall j | 0 <= j < |nodes[tail].level|
      ensures nodes[tail].level[j] == Level(NIL, 0)
    {
      Step(nodes, order, level, |order|, j);
    }
  }
}
