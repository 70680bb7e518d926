/**
 * The shape a tree must have to be drawn: every node offers a label and an
 * ordered list of children, and a missing child keeps its place in that list
 * as an explicit absent marker (the null entry of the Java interface).
 */
module LatexTreeNode {

  /** A child slot: either absent, or a node with its label and ordered children. */
  datatype Tree =
    | Absent
    | Node(dataString: string, children: seq<Tree>)

  /** The number of slots in a tree: present nodes plus absent markers. */
  function Slots(t: Tree): (n: nat)
    ensures n >= 1
  {
    match t
    case Absent => 1
    case Node(_, cs) => 1 + SlotsSeq(cs)
  }

  /** The number of slots in a sequence of sibling subtrees. */
  function SlotsSeq(cs: seq<Tree>): (n: nat)
    ensures n >= |cs|
  {
    if cs == [] then 0 else Slots(cs[0]) + SlotsSeq(cs[1..])
  }

  /** The number of present (non-absent) nodes in a tree. */
  function Nodes(t: Tree): nat
  {
    match t
    case Absent => 0
    case Node(_, cs) => 1 + NodesSeq(cs)
  }

  function NodesSeq(cs: seq<Tree>): nat
  {
    if cs == [] then 0 else Nodes(cs[0]) + NodesSeq(cs[1..])
  }

  /** The number of absent markers in a tree. */
  function Absents(t: Tree): nat
  {
    match t
    case Absent => 1
    case Node(_, cs) => AbsentsSeq(cs)
  }

  function AbsentsSeq(cs: seq<Tree>): nat
  {
    if cs == [] then 0 else Absents(cs[0]) + AbsentsSeq(cs[1..])
  }

  /** Every slot is either a present node or an absent marker. */
  lemma {:induction false} SlotsSplit(t: Tree)
    ensures Slots(t) == Nodes(t) + Absents(t)
    decreases t, 1
  {
    match t
    case Absent =>
    case Node(_, cs) => SlotsSplitSeq(cs);
  }

  lemma {:induction false} SlotsSplitSeq(cs: seq<Tree>)
    ensures SlotsSeq(cs) == NodesSeq(cs) + AbsentsSeq(cs)
    decreases cs, 0
  {
    if cs != [] {
      SlotsSplit(cs[0]);
      SlotsSplitSeq(cs[1..]);
    }
  }

  /** The height of the tree of slots: an absent marker counts as a level, so it and a leaf both have height 1. */
  function Height(t: Tree): (h: nat)
    ensures h >= 1
  {
    match t
    case Absent => 1
    case Node(_, cs) => 1 + HeightSeq(cs)
  }

  /** The greatest height among siblings, 0 when there are none. */
  function HeightSeq(cs: seq<Tree>): (h: nat)
    ensures forall c <- cs :: Height(c) <= h
    ensures cs == [] <==> h == 0
    ensures cs != [] ==> exists c <- cs :: Height(c) == h
  {
    if cs == [] then 0
    else
      var rest := HeightSeq(cs[1..]);
      assert forall c <- cs :: c == cs[0] || c in cs[1..];
      if Height(cs[0]) < rest then rest else Height(cs[0])
  }

  /** No label anywhere in the tree contains a square bracket. */
  predicate BracketFree(t: Tree)
  {
    match t
    case Absent => true
    case Node(l, cs) => '[' !in l && ']' !in l && BracketFreeSeq(cs)
  }

  predicate BracketFreeSeq(cs: seq<Tree>)
  {
    cs == [] || (BracketFree(cs[0]) && BracketFreeSeq(cs[1..]))
  }
}
