/**
 * What a well-formed skip list is, stated over the arena of nodes and the
 * ghost sequence `order` of the real nodes in level-0 order.
 *
 * Positions: position 0 is the header, position p (1 <= p <= |order|) is the
 * node `order[p - 1]`. A node of height h is on levels 0 .. h - 1. On level j
 * the successor of position p is `NextAt(hs, j, p)`, the first later position
 * whose height exceeds j (|order| + 1 when there is none), and a level entry
 * is canonical when its forward names that successor and its span is the
 * distance to it; the last entry on a level spans to the end of the list, so
 * the spans along a level add up to the length.
 */
module SkipSpec {
  import opened ComparatorUtil
  import opened SkipNode

  // ---------------------------------------------------------------------------
  // Order of keys

  /** The outcome of one test of the descent. */
  datatype Verdict = Ahead | NotAhead | Throws(error: CompareError)

  /**
   * The descent's test on the node ahead of it: does that node go before the
   * new (score, value)? With `tieBreak` (the generic list) equal scores are
   * decided by `Comparator`, whose exception aborts the insertion; without
   * it (the Integer list) the tie clause is always false.
   */
  function Precedes(tieBreak: bool, n: Node, score: int, value: Value): (r: Verdict)
  {
    if n.score < score then Ahead
    else if n.score == score && tieBreak then
      var c := Comparator(n.value, value);
      if c.Err? then Throws(c.error) else if c.value < 0 then Ahead else NotAhead
    else NotAhead
  }

  /** Key order between two stored nodes: `a` may stand before `b`. */
  predicate KeyLe(tieBreak: bool, a: Node, b: Node)
  {
    a.score < b.score ||
    (a.score == b.score && (!tieBreak || NotAfter(a.value, b.value)))
  }

  lemma KeyLeTransitive(tieBreak: bool, a: Node, b: Node, c: Node)
    requires KeyLe(tieBreak, a, b) && KeyLe(tieBreak, b, c)
    ensures KeyLe(tieBreak, a, c)
  {
    if tieBreak && a.score == b.score == c.score {
      ComparatorTransitive(a.value, b.value, c.value);
    }
  }

  /**
   * What the descent learns from one test: a node that precedes goes before
   * the new node, and the new node goes before a node that does not.
   */
  lemma PrecedesOrder(tieBreak: bool, n: Node, m: Node)
    requires !Precedes(tieBreak, n, m.score, m.value).Throws?
    ensures Precedes(tieBreak, n, m.score, m.value) == Ahead ==> KeyLe(tieBreak, n, m)
    ensures Precedes(tieBreak, n, m.score, m.value) == NotAhead ==> KeyLe(tieBreak, m, n)
  {
    ComparatorAntisymmetric(n.value, m.value);
  }

  /**
   * Without the tie clause the descent's test is the strict score order and
   * never reaches the comparator, whatever the values.
   */
  lemma ScoreOnlyPrecedes(n: Node, score: int, value: Value)
    ensures !Precedes(false, n, score, value).Throws?
    ensures Precedes(false, n, score, value) == Ahead <==> n.score < score
  {
  }

  // ---------------------------------------------------------------------------
  // Positions and canonical level entries

  /** The arena index at position `p`; position 0 is the header. */
  function At(order: seq<nat>, p: nat): nat
    requires p <= |order|
  {
    if p == 0 then 0 else order[p - 1]
  }

  predicate InArena(nodes: seq<Node>, order: seq<nat>)
  {
    forall k :: 0 <= k < |order| ==> order[k] < |nodes|
  }

  /** The heights of the real nodes, in level-0 order. */
  function Heights(nodes: seq<Node>, order: seq<nat>): (hs: seq<nat>)
    requires InArena(nodes, order)
    ensures |hs| == |order|
    ensures forall k {:trigger hs[k]} :: 0 <= k < |order| ==> hs[k] == |nodes[order[k]].level|
  {
    seq(|order|, k requires 0 <= k < |order| => |nodes[order[k]].level|)
  }

  /**
   * The successor of position `p` on level `j`: the first later position
   * whose height exceeds `j`, or |hs| + 1 when there is none.
   */
  function NextAt(hs: seq<nat>, j: nat, p: nat): (q: nat)
    requires p <= |hs|
    ensures p < q <= |hs| + 1
    ensures q <= |hs| ==> hs[q - 1] > j
    decreases |hs| - p
  {
    if p == |hs| then |hs| + 1
    else if hs[p] > j then p + 1
    else NextAt(hs, j, p + 1)
  }

  /** The level-`j` entry that position `p` must hold. */
  function Canon(order: seq<nat>, hs: seq<nat>, j: nat, p: nat): Level
    requires |hs| == |order| && p <= |order|
  {
    var q := NextAt(hs, j, p);
    if q <= |order| then Level(At(order, q), q - p) else Level(NIL, |order| - p)
  }

  // ---------------------------------------------------------------------------
  // The invariant

  /** The last index of `a` in `s`, or -1; `order` lists each node once when this inverts it. */
  ghost function PosIn(s: seq<nat>, a: nat): int
  {
    if |s| == 0 then -1 else if s[|s| - 1] == a then |s| - 1 else PosIn(s[..|s| - 1], a)
  }

  /** Header, arena size, `order` a permutation of 1 .. length, heights within `level`. */
  ghost predicate Shape(nodes: seq<Node>, order: seq<nat>, level: int)
  {
    && |nodes| == |order| + 1
    && 1 <= level <= MAX_LEVEL
    && |nodes[0].level| == MAX_LEVEL
    && nodes[0].backward == NIL
    && (forall k :: 0 <= k < |order| ==> 1 <= order[k] <= |order|)
    && (forall k {:trigger PosIn(order, order[k])} :: 0 <= k < |order| ==> PosIn(order, order[k]) == k)
    && (forall k {:trigger nodes[order[k]]} :: 0 <= k < |order| ==> 1 <= |nodes[order[k]].level| <= level)
  }

  /** Every level entry in use is canonical; the header's unused levels are empty. */
  ghost predicate Links(nodes: seq<Node>, order: seq<nat>, level: int)
    requires Shape(nodes, order, level)
  {
    var hs := Heights(nodes, order);
    && (forall p, j {:trigger nodes[At(order, p)].level[j]} ::
          0 <= p <= |order| && 0 <= j < level && j < |nodes[At(order, p)].level| ==>
          nodes[At(order, p)].level[j] == Canon(order, hs, j, p))
    && (forall j :: level <= j < MAX_LEVEL ==> nodes[0].level[j] == Level(NIL, 0))
  }

  /** `backward` names the level-0 predecessor; the first node's is null. */
  ghost predicate Backward(nodes: seq<Node>, order: seq<nat>)
    requires InArena(nodes, order)
  {
    forall k {:trigger nodes[order[k]].backward} :: 0 <= k < |order| ==>
      nodes[order[k]].backward == (if k == 0 then NIL else order[k - 1])
  }

  /** `tail` is the last node, or null when the list is empty. */
  predicate Tail(order: seq<nat>, tail: int)
  {
    tail == if |order| == 0 then NIL else order[|order| - 1]
  }

  /** Level 0 is ordered by key: every node may stand before every later one. */
  ghost predicate Sorted(tieBreak: bool, nodes: seq<Node>, order: seq<nat>)
    requires InArena(nodes, order)
  {
    forall k, m {:trigger KeyLe(tieBreak, nodes[order[k]], nodes[order[m]])} ::
      0 <= k < m < |order| ==> KeyLe(tieBreak, nodes[order[k]], nodes[order[m]])
  }

  ghost predicate WellFormed(tieBreak: bool, nodes: seq<Node>, order: seq<nat>, level: int, tail: int)
  {
    && Shape(nodes, order, level)
    && Links(nodes, order, level)
    && Backward(nodes, order)
    && Tail(order, tail)
    && Sorted(tieBreak, nodes, order)
  }
}
