/**
 * The LaTeX (tikz-qtree) serializer: renders a tree as a bracketed node
 * expression, wraps it in a tikzpicture block, and wraps that block in a
 * complete LaTeX document bound for a file under the `latex` directory.
 */
module LatexTree {
  import opened LatexTreeNode

  const FILE_HEADER: string :=
    "\\documentclass{article}\n\\usepackage{tikz}\n\\usepackage{amssymb}\n" +
    "\\usepackage{tikz-qtree}\n\\begin{document}\n\\begin{center}\n\\textbf{LATEX TREE " +
    "GENERATOR}\\newline\\textit{author: Nathaniel Lao}\\newline\\newline\n"
  const TREE_HEADER: string := "\\begin{tikzpicture}\n\\Tree "
  const NULL_SYMBOL: string := "[ .$\\varnothing$ ]"
  const TREE_FOOTER: string := "\n\\end{tikzpicture}\\newline\\newline\n"
  const FILE_FOOTER: string := "\\end{center}\n\\end{document}\n"
  const DEFAULT_FILE_NAME: string := "latex_tree.tex"
  /** The directory prefix every output path starts with. */
  const OUTPUT_DIRECTORY: string := "latex/"

  /**
   * The node expression of one slot: the placeholder for an absent child,
   * otherwise `[ .label children ]` with the children's expressions
   * concatenated in order and no separator between them.
   */
  function Render(t: Tree): string
    decreases t, 1
  {
    match t
    case Absent => NULL_SYMBOL
    case Node(dataString, children) => "[ ." + dataString + " " + RenderSeq(children) + " ]"
  }

  /** The in-order concatenation of the expressions of sibling slots. */
  function RenderSeq(cs: seq<Tree>): string
    decreases cs, 0
  {
    if cs == [] then "" else Render(cs[0]) + RenderSeq(cs[1..])
  }

  /** Rendering a sequence of siblings distributes over concatenation. */
  lemma {:induction false} RenderSeqAppend(a: seq<Tree>, b: seq<Tree>)
    ensures RenderSeq(a + b) == RenderSeq(a) + RenderSeq(b)
    decreases a
  {
    if a == [] {
      assert a + b == b;
    } else {
      assert (a + b)[0] == a[0] && (a + b)[1..] == a[1..] + b;
      RenderSeqAppend(a[1..], b);
    }
  }

  /**
   * The recursive generator as the source writes it: an absent slot gives the
   * placeholder; a present node accumulates its children's code in a loop
   * that starts from the empty string, then wraps it with the label.
   */
  method GenerateTreeCodeHelp(current: Tree) returns (code: string)
    ensures code == Render(current)
    decreases current
  {
    if current.Absent? {
      return NULL_SYMBOL;
    }
    var children := current.children;
    var childrenCode := "";
    for i := 0 to |children|
      invariant childrenCode == RenderSeq(children[..i])
    {
      var childCode := GenerateTreeCodeHelp(children[i]);
      RenderSeqAppend(children[..i], [children[i]]);
      assert children[..i + 1] == children[..i] + [children[i]];
      childrenCode := childrenCode + childCode;
    }
    assert children[..|children|] == children;
    code := "[ ." + current.dataString + " " + childrenCode + " ]";
  }

  /** One tikzpicture block: the tree header, the root's expression, the tree footer. */
  function GenerateTreeCode(root: Tree): (r: string)
    ensures |r| == |TREE_HEADER| + |Render(root)| + |TREE_FOOTER|
    ensures r[..|TREE_HEADER|] == TREE_HEADER
    ensures r[|TREE_HEADER|..|r| - |TREE_FOOTER|] == Render(root)
    ensures r[|r| - |TREE_FOOTER|..] == TREE_FOOTER
  {
    TREE_HEADER + Render(root) + TREE_FOOTER
  }

  /** What one call of `makeFile` would write, and where. */
  datatype FileWrite = FileWrite(path: string, content: string)

  /**
   * `makeFile(treeCode, fileName)`: the document is the file header, the given
   * block and the file footer; it goes to the given name inside `latex`.
   */
  function MakeFileFromCode(treeCode: string, fileName: string): (w: FileWrite)
    ensures |w.path| == |OUTPUT_DIRECTORY| + |fileName|
    ensures w.path[..|OUTPUT_DIRECTORY|] == OUTPUT_DIRECTORY
    ensures w.path[|OUTPUT_DIRECTORY|..] == fileName
    ensures |w.content| == |FILE_HEADER| + |treeCode| + |FILE_FOOTER|
    ensures w.content[..|FILE_HEADER|] == FILE_HEADER
    ensures w.content[|FILE_HEADER|..|FILE_HEADER| + |treeCode|] == treeCode
    ensures w.content[|FILE_HEADER| + |treeCode|..] == FILE_FOOTER
  {
    FileWrite(OUTPUT_DIRECTORY + fileName, FILE_HEADER + treeCode + FILE_FOOTER)
  }

  /** `makeFile(treeCode)`: the pre-rendered block, under the default name. */
  function MakeDefaultFileFromCode(treeCode: string): (w: FileWrite)
    ensures w.path == "latex/latex_tree.tex"
    ensures |w.content| == |FILE_HEADER| + |treeCode| + |FILE_FOOTER|
    ensures w.content[..|FILE_HEADER|] == FILE_HEADER
    ensures w.content[|FILE_HEADER|..|FILE_HEADER| + |treeCode|] == treeCode
    ensures w.content[|FILE_HEADER| + |treeCode|..] == FILE_FOOTER
  {
    MakeFileFromCode(treeCode, DEFAULT_FILE_NAME)
  }

  /**
   * `makeFile(root, fileName)`: renders the tree into a block first, so the
   * root's expression sits right after the file header and the tree header,
   * and the tree footer and file footer follow it.
   */
  function MakeFile(root: Tree, fileName: string): (w: FileWrite)
    ensures |w.path| == |OUTPUT_DIRECTORY| + |fileName|
    ensures w.path[..|OUTPUT_DIRECTORY|] == OUTPUT_DIRECTORY
    ensures w.path[|OUTPUT_DIRECTORY|..] == fileName
    ensures var start := |FILE_HEADER| + |TREE_HEADER|;
            var end := start + |Render(root)|;
            && |w.content| == end + |TREE_FOOTER| + |FILE_FOOTER|
            && w.content[..start] == FILE_HEADER + TREE_HEADER
            && w.content[start..end] == Render(root)
            && w.content[end..] == TREE_FOOTER + FILE_FOOTER
  {
    var w := MakeFileFromCode(GenerateTreeCode(root), fileName);
    Regroup(FILE_HEADER, TREE_HEADER, Render(root), TREE_FOOTER, FILE_FOOTER);
    ThreeParts(FILE_HEADER + TREE_HEADER, Render(root), TREE_FOOTER + FILE_FOOTER);
    w
  }

  /** `makeFile(root)`: renders the tree into a block first, under the default name. */
  function MakeDefaultFile(root: Tree): (w: FileWrite)
    ensures w.path == "latex/latex_tree.tex"
    ensures w == MakeFile(root, DEFAULT_FILE_NAME)
  {
    MakeDefaultFileFromCode(GenerateTreeCode(root))
  }

  lemma Regroup(a: string, b: string, c: string, d: string, e: string)
    ensures a + (b + c + d) + e == (a + b) + c + (d + e)
  {
  }

  /** The three parts of a concatenation can be sliced back out of it. */
  lemma ThreeParts(a: string, b: string, c: string)
    ensures (a + b + c)[..|a|] == a
    ensures (a + b + c)[|a|..|a| + |b|] == b
    ensures (a + b + c)[|a| + |b|..] == c
  {
  }

  /** The file name decides only the path, and distinct names give distinct paths. */
  lemma FileNameOnlyPicksPath(root: Tree, name1: string, name2: string)
    ensures MakeFile(root, name1).content == MakeFile(root, name2).content
    ensures MakeFile(root, name1).path == MakeFile(root, name2).path <==> name1 == name2
  {
    var p1, p2 := MakeFile(root, name1).path, MakeFile(root, name2).path;
    if p1 == p2 {
      assert name1 == p1[|OUTPUT_DIRECTORY|..] == p2[|OUTPUT_DIRECTORY|..] == name2;
    }
  }
}
