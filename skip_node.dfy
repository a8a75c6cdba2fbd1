/**
 * A skip-list node (`zskip/SkipNode.java`, and the nested `SkipNode` of
 * `skip/SkipList.java`).
 *
 * Nodes live in an arena owned by the list: a node is named by its index in
 * the arena, index 0 is the header, and a missing link (Java's `null`) is
 * `NIL`. The node record itself is a value; the list rewrites it in place by
 * storing an updated record at the same index.
 */
module SkipNode {
  import opened ComparatorUtil

  /** Redis 5 allows at most 64 levels. */
  const MAX_LEVEL: nat := 64

  /** The null link. */
  const NIL: int := -1

  /**
   * One level entry (`SkipListLevel`): the next node on this level and the
   * number of level-0 steps to reach it.
   */
  datatype Level = Level(forward: int, span: int)

  datatype Node = Node(score: int, value: Value, backward: int, level: seq<Level>)

  /** `new SkipNode(score, value)`: no backward link and no level array yet. */
  function NewNode(score: int, value: Value): (n: Node)
    ensures n.score == score && n.value == value
    ensures n.backward == NIL && |n.level| == 0
  {
    Node(score, value, NIL, [])
  }

  /**
   * `zslCreateNode(level, score, value)`: a node with `height` level entries.
   * The Java code leaves every entry null, so the first write to one of them
   * fails; the model allocates each entry unlinked, as the header of
   * `createZslList` does.
   */
  function CreateNode(height: nat, score: int, value: Value): (n: Node)
    ensures n.score == score && n.value == value && n.backward == NIL
    ensures |n.level| == height
    ensures forall j :: 0 <= j < height ==> n.level[j].forward == NIL && n.level[j].span == 0
  {
    Node(score, value, NIL, seq(height, _ => Level(NIL, 0)))
  }

  /** The node with its level-`j` entry replaced. */
  function WithLevel(n: Node, j: nat, e: Level): (m: Node)
    requires j < |n.level|
    ensures m.score == n.score && m.value == n.value && m.backward == n.backward
    ensures |m.level| == |n.level| && m.level[j] == e
    ensures forall k :: 0 <= k < |n.level| && k != j ==> m.level[k] == n.level[k]
  {
    n.(level := n.level[j := e])
  }
}
