/**
 * What the tikz-qtree output promises about the tree it came from: one
 * bracket pair per slot, brackets balanced in every prefix, each slot's
 * expression a single bracketed block, children in order and contiguous.
 */
module LatexTreeProperties {
  import opened LatexTreeNode
  import opened LatexTree

  /** The number of occurrences of `c` in `s`. */
  function Count(c: char, s: string): (n: nat)
    ensures n <= |s|
    ensures n == 0 <==> c !in s
  {
    if s == [] then 0 else (if s[0] == c then 1 else 0) + Count(c, s[1..])
  }

  lemma {:induction false} CountAppend(c: char, a: string, b: string)
    ensures Count(c, a + b) == Count(c, a) + Count(c, b)
  {
    if a == [] {
      assert a + b == b;
    } else {
      assert (a + b)[0] == a[0] && (a + b)[1..] == a[1..] + b;
      CountAppend(c, a[1..], b);
    }
  }

  /** Opening minus closing brackets: how deep `s` leaves the nesting. */
  function Nest(s: string): int
  {
    Count('[', s) - Count(']', s)
  }

  lemma NestAppend(a: string, b: string)
    ensures Nest(a + b) == Nest(a) + Nest(b)
  {
    CountAppend('[', a, b);
    CountAppend(']', a, b);
  }

  /** As many closing as opening brackets, and no prefix closes more than it opened. */
  ghost predicate Balanced(s: string)
  {
    Nest(s) == 0 && forall k :: 0 <= k <= |s| ==> Nest(s[..k]) >= 0
  }

  /**
   * A single bracketed block: balanced, and every proper non-empty prefix
   * still has a bracket open, so the first `[` is closed by the last `]`.
   */
  ghost predicate Block(s: string)
  {
    2 <= |s| && s[0] == '[' && s[|s| - 1] == ']' &&
    Nest(s) == 0 && forall k :: 0 < k < |s| ==> Nest(s[..k]) >= 1
  }

  /** No square bracket anywhere in `s`. */
  predicate NoBrackets(s: string)
  {
    forall i :: 0 <= i < |s| ==> s[i] != '[' && s[i] != ']'
  }

  lemma NoBracketsAppend(a: string, b: string)
    requires NoBrackets(a) && NoBrackets(b)
    ensures NoBrackets(a + b)
  {
    forall i | 0 <= i < |a + b| ensures (a + b)[i] != '[' && (a + b)[i] != ']' {
      if i >= |a| {
        assert (a + b)[i] == b[i - |a|];
      }
    }
  }

  lemma {:induction false} NoBracketsCount(s: string)
    requires NoBrackets(s)
    ensures Count('[', s) == 0 && Count(']', s) == 0
  {
    assert '[' !in s && ']' !in s;
  }

  lemma NoBracketsBalanced(s: string)
    requires NoBrackets(s)
    ensures Balanced(s)
  {
    NoBracketsCount(s);
    forall k | 0 <= k <= |s| ensures Nest(s[..k]) >= 0 {
      NoBracketsCount(s[..k]);
    }
  }

  lemma {:induction false} BalancedAppend(a: string, b: string)
    requires Balanced(a) && Balanced(b)
    ensures Balanced(a + b)
  {
    NestAppend(a, b);
    forall k | 0 <= k <= |a + b| ensures Nest((a + b)[..k]) >= 0 {
      if k <= |a| {
        assert (a + b)[..k] == a[..k];
      } else {
        assert (a + b)[..k] == a + b[..k - |a|];
        NestAppend(a, b[..k - |a|]);
        assert a[..|a|] == a;
      }
    }
  }

  lemma {:induction false} BlockIsBalanced(s: string)
    requires Block(s)
    ensures Balanced(s)
  {
    assert s[..0] == [];
    assert s[..|s|] == s;
  }

  /** Wrapping a balanced string in one bracket pair gives a single block. */
  lemma {:induction false} WrapIsBlock(m: string)
    requires Balanced(m)
    ensures Block("[" + m + "]")
  {
    var s := "[" + m + "]";
    NestAppend("[" + m, "]");
    NestAppend("[", m);
    forall k | 0 < k < |s| ensures Nest(s[..k]) >= 1 {
      assert s[..k] == "[" + m[..k - 1];
      NestAppend("[", m[..k - 1]);
    }
  }

  /**
   * Both shapes of a slot's expression, `[ .` label body ` ]`: the body is
   * empty for the placeholder and a space plus the children for a node.
   */
  lemma SlotShapeIsBlock(l: string, body: string)
    requires NoBrackets(l) && Balanced(body)
    ensures Block("[ ." + l + body + " ]")
  {
    var pre := " ." + l;
    NoBracketsAppend(" .", l);
    NoBracketsBalanced(pre);
    NoBracketsBalanced(" ");
    BalancedAppend(pre, body);
    BalancedAppend(pre + body, " ");
    WrapIsBlock(pre + body + " ");
    assert "[ ." + l + body + " ]" == "[" + (pre + body + " ") + "]";
  }

  lemma SlotShapeBrackets(c: char, l: string, body: string)
    requires c == '[' || c == ']'
    requires NoBrackets(l)
    ensures Count(c, "[ ." + l + body + " ]") == 1 + Count(c, body)
  {
    NoBracketsAppend(" .", l);
    NoBracketsCount(" ." + l);
    assert "[ ." + l + body + " ]" == "[" + (" ." + l) + body + (" " + "]");
    CountAppend(c, "[" + (" ." + l) + body, " " + "]");
    CountAppend(c, "[" + (" ." + l), body);
    CountAppend(c, "[", " ." + l);
    CountAppend(c, " ", "]");
  }

  /** The placeholder has the slot shape with the empty-set glyph as its label. */
  lemma NullSymbolShape()
    ensures NULL_SYMBOL == "[ ." + "$\\varnothing$" + "" + " ]"
    ensures NoBrackets("$\\varnothing$")
  {
  }

  lemma LabelNoBrackets(l: string)
    requires '[' !in l && ']' !in l
    ensures NoBrackets(l)
  {
  }

  /** A present node's expression has the slot shape with its label. */
  lemma NodeShape(l: string, cs: seq<Tree>)
    ensures Render(Node(l, cs)) == "[ ." + l + (" " + RenderSeq(cs)) + " ]"
  {
  }

  /**
   * With bracket-free labels, a slot's expression is one block and the
   * concatenated expressions of siblings are balanced.
   */
  lemma {:induction false} RenderIsBlock(t: Tree)
    requires BracketFree(t)
    ensures Block(Render(t))
    decreases t, 1
  {
    match t
    case Absent =>
      NullSymbolShape();
      NoBracketsBalanced("");
      SlotShapeIsBlock("$\\varnothing$", "");
    case Node(l, cs) =>
      NodeShape(l, cs);
      LabelNoBrackets(l);
      RenderSeqBalanced(cs);
      NoBracketsBalanced(" ");
      BalancedAppend(" ", RenderSeq(cs));
      SlotShapeIsBlock(l, " " + RenderSeq(cs));
  }

  lemma {:induction false} RenderSeqBalanced(cs: seq<Tree>)
    requires BracketFreeSeq(cs)
    ensures Balanced(RenderSeq(cs))
    decreases cs, 0
  {
    if cs == [] {
      NoBracketsBalanced("");
    } else {
      RenderIsBlock(cs[0]);
      BlockIsBalanced(Render(cs[0]));
      RenderSeqBalanced(cs[1..]);
      BalancedAppend(Render(cs[0]), RenderSeq(cs[1..]));
    }
  }

  /**
   * With bracket-free labels, a slot's expression holds exactly one `[` and
   * one `]` per slot of the tree: one per present node and one per absent marker.
   */
  lemma {:induction false} RenderBracketCount(t: Tree)
    requires BracketFree(t)
    ensures Count('[', Render(t)) == Slots(t) == Nodes(t) + Absents(t)
    ensures Count(']', Render(t)) == Slots(t)
    decreases t, 1
  {
    SlotsSplit(t);
    match t
    case Absent =>
      NullSymbolShape();
      SlotShapeBrackets('[', "$\\varnothing$", "");
      SlotShapeBrackets(']', "$\\varnothing$", "");
    case Node(l, cs) =>
      NodeShape(l, cs);
      LabelNoBrackets(l);
      RenderSeqBracketCount(cs);
      forall c | c == '[' || c == ']'
        ensures Count(c, Render(t)) == 1 + SlotsSeq(cs)
      {
        SlotShapeBrackets(c, l, " " + RenderSeq(cs));
        CountAppend(c, " ", RenderSeq(cs));
      }
  }

  lemma {:induction false} RenderSeqBracketCount(cs: seq<Tree>)
    requires BracketFreeSeq(cs)
    ensures Count('[', RenderSeq(cs)) == SlotsSeq(cs)
    ensures Count(']', RenderSeq(cs)) == SlotsSeq(cs)
    decreases cs, 0
  {
    if cs != [] {
      RenderBracketCount(cs[0]);
      RenderSeqBracketCount(cs[1..]);
      CountAppend('[', Render(cs[0]), RenderSeq(cs[1..]));
      CountAppend(']', Render(cs[0]), RenderSeq(cs[1..]));
    }
  }

  /** The deepest nesting reached by any prefix of `s`. */
  function Peak(s: string): (p: int)
    ensures p >= 0 && p >= Nest(s)
  {
    if s == [] then 0
    else
      var q := Peak(s[..|s| - 1]);
      if q < Nest(s) then Nest(s) else q
  }

  /** `Peak` is the greatest `Nest` over the prefixes of `s`, and some prefix reaches it. */
  lemma {:induction false} PeakIsMaximum(s: string)
    ensures forall k :: 0 <= k <= |s| ==> Nest(s[..k]) <= Peak(s)
    ensures exists k :: 0 <= k <= |s| && Nest(s[..k]) == Peak(s)
    decreases |s|
  {
    if s == [] {
      assert s[..0] == s;
    } else {
      var init := s[..|s| - 1];
      PeakIsMaximum(init);
      assert forall k :: 0 <= k < |s| ==> s[..k] == init[..k];
      assert s[..|s|] == s;
      if Peak(init) < Nest(s) {
        assert Nest(s[..|s|]) == Peak(s);
      } else {
        var k :| 0 <= k <= |init| && Nest(init[..k]) == Peak(init);
        assert Nest(s[..k]) == Peak(s);
      }
    }
  }

  lemma {:induction false} PeakAppend(a: string, b: string)
    ensures Peak(a + b) == if Peak(a) < Nest(a) + Peak(b) then Nest(a) + Peak(b) else Peak(a)
    decreases |b|
  {
    if b == [] {
      assert a + b == a;
      assert Nest([]) == 0;
    } else {
      var b' := b[..|b| - 1];
      assert (a + b)[..|a + b| - 1] == a + b';
      PeakAppend(a, b');
      NestAppend(a, b);
    }
  }

  lemma {:induction false} NoBracketsPeak(s: string)
    requires NoBrackets(s)
    ensures Peak(s) == 0 && Nest(s) == 0
    decreases |s|
  {
    NoBracketsCount(s);
    if s != [] {
      var init := s[..|s| - 1];
      assert NoBrackets(init);
      NoBracketsPeak(init);
    }
  }

  /** The opening of a slot shape leaves one bracket open. */
  lemma OpeningPeak(l: string)
    requires NoBrackets(l)
    ensures Peak("[ ." + l) == 1 && Nest("[ ." + l) == 1
  {
    NoBracketsAppend(" .", l);
    NoBracketsPeak(" ." + l);
    assert "[ ." + l == "[" + (" ." + l);
    assert Peak("[") == 1 by { assert "["[..0] == []; }
    PeakAppend("[", " ." + l);
    NestAppend("[", " ." + l);
  }

  /** The closing of a slot shape never reaches above where it starts. */
  lemma ClosingPeak()
    ensures Peak(" ]") == 0
  {
    assert " ]"[..1] == " ";
    assert " "[..0] == [];
  }

  /** A slot shape is one level deeper than its body. */
  lemma SlotShapePeak(l: string, body: string)
    requires NoBrackets(l)
    ensures Peak("[ ." + l + body + " ]") == 1 + Peak(body)
  {
    var pre := "[ ." + l;
    OpeningPeak(l);
    ClosingPeak();
    PeakAppend(pre, body);
    NestAppend(pre, body);
    assert body[..|body|] == body;
    PeakAppend(pre + body, " ]");
  }

  /**
   * With bracket-free labels, the deepest bracket nesting in a slot's
   * expression equals the height of the tree.
   */
  lemma {:induction false} RenderPeak(t: Tree)
    requires BracketFree(t)
    ensures Peak(Render(t)) == Height(t)
    decreases t, 1
  {
    match t
    case Absent =>
      NullSymbolShape();
      assert Peak("") == 0;
      SlotShapePeak("$\\varnothing$", "");
    case Node(l, cs) =>
      NodeShape(l, cs);
      LabelNoBrackets(l);
      RenderSeqPeak(cs);
      NoBracketsPeak(" ");
      PeakAppend(" ", RenderSeq(cs));
      SlotShapePeak(l, " " + RenderSeq(cs));
  }

  lemma {:induction false} RenderSeqPeak(cs: seq<Tree>)
    requires BracketFreeSeq(cs)
    ensures Peak(RenderSeq(cs)) == HeightSeq(cs)
    decreases cs, 0
  {
    if cs != [] {
      RenderPeak(cs[0]);
      RenderIsBlock(cs[0]);
      RenderSeqPeak(cs[1..]);
      PeakAppend(Render(cs[0]), RenderSeq(cs[1..]));
    }
  }

  /** No block is a proper prefix of another: the first return to depth 0 ends it. */
  lemma {:induction false} BlockPrefixFree(x: string, y: string, s1: string, s2: string)
    requires Block(x) && Block(y) && x + s1 == y + s2
    ensures x == y && s1 == s2
  {
    if |x| < |y| {
      LongerBlockDiffers(y, x, s2, s1);
      assert false;
    } else if |y| < |x| {
      LongerBlockDiffers(x, y, s1, s2);
      assert false;
    }
    assert (x + s1)[..|x|] == x && (y + s2)[..|y|] == y;
    assert (x + s1)[|x|..] == s1 && (y + s2)[|y|..] == s2;
  }

  /** A longer block never starts with a shorter one. */
  lemma LongerBlockDiffers(x: string, y: string, s1: string, s2: string)
    requires Block(x) && Block(y) && |y| < |x|
    ensures x + s1 != y + s2
  {
    assert (x + s1)[..|y|] == x[..|y|] && (y + s2)[..|y|] == y;
  }

  /**
   * Where a present node's expression puts its label, the space after it,
   * and what follows that space: the first child's `[`, or ` ]` for a leaf.
   * The layout holds for every label; a label without brackets also leaves
   * its stretch of the expression free of brackets.
   */
  lemma NodeLayout(l: string, cs: seq<Tree>)
    ensures var r := Render(Node(l, cs));
            && |r| == 6 + |l| + |RenderSeq(cs)|
            && r[3..3 + |l|] == l
            && ('[' !in l && ']' !in l ==>
                  forall i :: 3 <= i < 3 + |l| ==> r[i] != '[' && r[i] != ']')
            && r[3 + |l|] == ' '
            && (cs != [] ==> r[4 + |l|] == '[')
            && (cs == [] ==> r[4 + |l|] == ' ' && r[5 + |l|] == ']')
            && r[4 + |l|..|r| - 2] == RenderSeq(cs)
  {
    var r := Render(Node(l, cs));
    var kids := RenderSeq(cs);
    assert r == "[ ." + l + " " + kids + " ]";
    if cs != [] {
      NodeShapeFirst(cs);
    }
  }

  /** The children's expressions, when there are any, start with a `[`. */
  lemma NodeShapeFirst(cs: seq<Tree>)
    requires cs != []
    ensures |RenderSeq(cs)| > 0 && RenderSeq(cs)[0] == '['
  {
    match cs[0]
    case Absent =>
    case Node(l, ds) =>
  }

  /** The placeholder has no space between its fourth character and its last two. */
  lemma NullSymbolLayout()
    ensures |NULL_SYMBOL| == 18
    ensures forall i :: 3 <= i < 16 ==> NULL_SYMBOL[i] != ' '
  {
  }

  /**
   * With bracket-free labels, distinct trees give distinct expressions: the
   * nesting of the output determines the tree, labels, order and absent
   * slots included.
   */
  lemma {:induction false} RenderInjective(t1: Tree, t2: Tree)
    requires BracketFree(t1) && BracketFree(t2)
    requires Render(t1) == Render(t2)
    ensures t1 == t2
    decreases t1, 1
  {
    match (t1, t2)
    case (Absent, Absent) =>
    case (Absent, Node(l, cs)) =>
      NodeLayout(l, cs);
      NullSymbolLayout();
      assert false;
    case (Node(l, cs), Absent) =>
      NodeLayout(l, cs);
      NullSymbolLayout();
      assert false;
    case (Node(l1, cs1), Node(l2, cs2)) =>
      NodeLayout(l1, cs1);
      NodeLayout(l2, cs2);
      var r := Render(t1);
      LabelLengthsAgree(r, l1, l2, cs1 != [], cs2 != []);
      assert l1 == r[3..3 + |l1|] == l2;
      assert RenderSeq(cs1) == r[4 + |l1|..|r| - 2] == RenderSeq(cs2);
      RenderSeqInjective(cs1, cs2);
  }

  /**
   * Two node layouts over one string have labels of the same length: where
   * the shorter label's node would put a bracket, the longer label's node
   * still has label characters or a space.
   */
  lemma LabelLengthsAgree(r: string, l1: string, l2: string, kids1: bool, kids2: bool)
    requires 6 + |l1| <= |r| && 6 + |l2| <= |r|
    requires forall i :: 3 <= i < 3 + |l1| ==> r[i] != '[' && r[i] != ']'
    requires forall i :: 3 <= i < 3 + |l2| ==> r[i] != '[' && r[i] != ']'
    requires r[3 + |l1|] == ' ' && r[3 + |l2|] == ' '
    requires kids1 ==> r[4 + |l1|] == '['
    requires !kids1 ==> r[4 + |l1|] == ' ' && r[5 + |l1|] == ']'
    requires kids2 ==> r[4 + |l2|] == '['
    requires !kids2 ==> r[4 + |l2|] == ' ' && r[5 + |l2|] == ']'
    ensures |l1| == |l2|
  {
  }

  lemma {:induction false} RenderSeqInjective(cs1: seq<Tree>, cs2: seq<Tree>)
    requires BracketFreeSeq(cs1) && BracketFreeSeq(cs2)
    requires RenderSeq(cs1) == RenderSeq(cs2)
    ensures cs1 == cs2
    decreases cs1, 0
  {
    if cs1 == [] || cs2 == [] {
      if cs1 != [] {
        NodeShapeFirst(cs1);
      } else if cs2 != [] {
        NodeShapeFirst(cs2);
      }
    } else {
      RenderIsBlock(cs1[0]);
      RenderIsBlock(cs2[0]);
      BlockPrefixFree(Render(cs1[0]), Render(cs2[0]), RenderSeq(cs1[1..]), RenderSeq(cs2[1..]));
      RenderInjective(cs1[0], cs2[0]);
      RenderSeqInjective(cs1[1..], cs2[1..]);
      assert cs1 == [cs1[0]] + cs1[1..] && cs2 == [cs2[0]] + cs2[1..];
    }
  }

  /**
   * Order preservation: the children's expressions appear in list order, each
   * as one contiguous piece immediately followed by the next sibling's.
   */
  lemma {:induction false} RenderSeqSplit(cs: seq<Tree>, i: nat)
    requires i < |cs|
    ensures RenderSeq(cs) == RenderSeq(cs[..i]) + Render(cs[i]) + RenderSeq(cs[i + 1..])
  {
    assert cs == cs[..i] + ([cs[i]] + cs[i + 1..]);
    RenderSeqAppend(cs[..i], [cs[i]] + cs[i + 1..]);
    RenderSeqAppend([cs[i]], cs[i + 1..]);
    assert RenderSeq([cs[i]]) == Render(cs[i]) + RenderSeq([]);
  }

  /**
   * Inside a present node, child `i`'s expression starts right after the
   * label, its separating space and the expressions of the children before it.
   */
  lemma {:induction false} ChildPosition(l: string, cs: seq<Tree>, i: nat)
    requires i < |cs|
    ensures var r := Render(Node(l, cs));
            var start := 3 + |l| + 1 + |RenderSeq(cs[..i])|;
            start + |Render(cs[i])| <= |r| &&
            r[start..start + |Render(cs[i])|] == Render(cs[i])
  {
    var head := "[ ." + l + " ";
    var kids := RenderSeq(cs);
    var child := Render(cs[i]);
    var k := |RenderSeq(cs[..i])|;
    RenderSeqSplit(cs, i);
    ThreeParts(RenderSeq(cs[..i]), child, RenderSeq(cs[i + 1..]));
    assert kids[k..k + |child|] == child;
    assert Render(Node(l, cs)) == head + kids + " ]";
    ThreeParts(head, kids, " ]");
    SliceOfSlice(Render(Node(l, cs)), |head|, |head| + |kids|, k, k + |child|);
  }

  lemma SliceOfSlice(s: string, lo: nat, hi: nat, i: nat, j: nat)
    requires lo <= hi <= |s| && i <= j <= hi - lo
    ensures s[lo..hi][i..j] == s[lo + i..lo + j]
  {
    assert forall x :: 0 <= x < j - i ==> s[lo..hi][i..j][x] == s[lo + i + x];
  }

  /** Every slot's expression, placeholder included, opens with `[ .` and closes with ` ]`. */
  lemma RenderDelimited(t: Tree)
    ensures var r := Render(t);
            6 <= |r| && r[..3] == "[ ." && r[|r| - 2..] == " ]"
  {
    match t
    case Absent =>
    case Node(l, cs) =>
      var body := l + " " + RenderSeq(cs);
      assert Render(t) == "[ ." + body + " ]";
      ThreeParts("[ .", body, " ]");
  }

  /** A leaf renders with two spaces before its closing bracket. */
  lemma LeafExample()
    ensures Render(Node("5", [])) == "[ .5  ]"
  {
  }

  /**
   * An absent child renders as the placeholder in its own position; siblings
   * are joined with no space between them.
   */
  lemma AbsentChildExample()
    ensures Render(Node("A", [Node("B", []), Absent])) == "[ .A [ .B  ][ .$\\varnothing$ ] ]"
  {
    var cs := [Node("B", []), Absent];
    assert cs[1..] == [Absent] && [Absent][1..] == [];
    assert RenderSeq([Absent]) == NULL_SYMBOL;
    assert Render(cs[0]) == "[ .B  ]";
    assert RenderSeq(cs) == "[ .B  ]" + NULL_SYMBOL;
    assert Render(Node("A", cs)) == "[ .A " + ("[ .B  ]" + NULL_SYMBOL) + " ]";
    AbsentChildText();
  }

  lemma AbsentChildText()
    ensures "[ .A " + ("[ .B  ]" + NULL_SYMBOL) + " ]" == "[ .A [ .B  ][ .$\\varnothing$ ] ]"
  {
  }

  /** An absent root gives a block holding just the placeholder. */
  lemma AbsentRootExample()
    ensures GenerateTreeCode(Absent) == TREE_HEADER + "[ .$\\varnothing$ ]" + TREE_FOOTER
  {
  }
}
