# Latex Tree Generator: a verified model

This project models the tree-to-LaTeX serializer of the Latex Tree Generator.
It draws an n-ary tree with the tikz-qtree package. Each node offers a label
(`getDataString`) and an ordered list of children, and a `null` entry marks a
missing child. The serializer turns the tree into a nested bracket expression:

- a missing child becomes the placeholder `[ .$\varnothing$ ]`;
- a present node becomes `[ .` + label + space + the children's expressions
  concatenated in order + space + `]`.

It then wraps that expression in a `tikzpicture` block (`generateTreeCode`).
`makeFile` wraps the block in a complete LaTeX document, to be written to
`latex/<fileName>`. The default file name is `latex_tree.tex`.

Files:

- `latex_tree_node.dfy` (module `LatexTreeNode`): the node interface as the
  datatype `Tree = Absent | Node(dataString, children)`. `Absent` is the null
  child. It also holds the measures the properties use: slots, present nodes,
  absent markers, height and bracket-free labels.
- `latex_tree.dfy` (module `LatexTree`):
  - the six string constants, copied verbatim (a Java `\\` is one backslash);
  - the specification functions `Render` and `RenderSeq`;
  - `GenerateTreeCodeHelp`, the source's recursion with its accumulating
    `for` loop, proved equal to `Render`;
  - `GenerateTreeCode`;
  - the four `makeFile` overloads, as functions that return the path and the
    content the file would receive.
- `latex_tree_properties.dfy` (module `LatexTreeProperties`): what the output
  says about the tree. These facts assume labels with no square brackets:
  - one `[` and one `]` per slot;
  - brackets balanced in every prefix;
  - each slot's expression is a single block;
  - the deepest nesting equals the tree's height, counted over slots (an absent
    child counts as one level, so `A` with one null child has height 2);
  - distinct trees give distinct output.

  The file also proves order and contiguity of children and checks worked
  examples.

The format is sometimes described with a space between sibling expressions,
but the model follows the code. The code joins sibling expressions with no separator
(LatexTree.java:103-105). So root `A` with children `[leaf B, null]` renders as
`[ .A [ .B  ][ .$\varnothing$ ] ]`, with no space between `]` and `[`. It does
not render as the space-separated form `[ .A [ .B  ] [ .$\varnothing$ ] ]`.
`AbsentChildExample` states the code's output.

## Model

| member | source | states |
|---|---|---|
| LatexTree.GenerateTreeCodeHelp | LatexTree.java:96-109 | The recursive generator returns exactly `Render(current)`. Its loop builds `childrenCode` from `""`, one child at a time, and after `i` children it holds `RenderSeq(children[..i])`. |
| LatexTree.RenderSeqAppend | LatexTree.java:101-105 | Concatenating the children's code distributes over splitting the child list: `RenderSeq(a + b) == RenderSeq(a) + RenderSeq(b)`. |
| LatexTree.GenerateTreeCode | LatexTree.java:85-87 | A tree block starts with `TREE_HEADER` and ends with `TREE_FOOTER`. What lies between is exactly the root's expression. |
| LatexTree.MakeFileFromCode | LatexTree.java:69-74 | The path is `latex/` followed by the file name. The content is `FILE_HEADER`, then the given tree code unchanged, then `FILE_FOOTER`. |
| LatexTree.MakeDefaultFileFromCode | LatexTree.java:56-58 | The one-argument code overload writes to `latex/latex_tree.tex`, with the same header, code and footer layout. |
| LatexTree.MakeFile | LatexTree.java:44-46 | For a tree, the content is `FILE_HEADER + TREE_HEADER`, then the root's expression, then `TREE_FOOTER + FILE_FOOTER`. The path ends with the given name. |
| LatexTree.MakeDefaultFile | LatexTree.java:32-34 | The one-argument tree overload equals the two-argument one with `DEFAULT_FILE_NAME`, and its path is `latex/latex_tree.tex`. |
| LatexTree.FileNameOnlyPicksPath | LatexTree.java:69-74 | The file name does not affect the content. Two names give the same path if and only if they are equal. |
| LatexTreeProperties.RenderDelimited | LatexTree.java:96-109 | Every slot's expression, placeholder included, is at least 6 characters long. It opens with `[ .` and closes with ` ]`. |
| LatexTreeProperties.RenderBracketCount | LatexTree.java:96-109 | With bracket-free labels, the output has as many `[` as the tree has slots (present nodes plus absent markers), and as many `]`. |
| LatexTreeProperties.RenderIsBlock | LatexTree.java:96-109 | With bracket-free labels, each slot's expression is one bracketed block: balanced in every prefix, with its first `[` closed only by its last `]`. |
| LatexTreeProperties.RenderSeqBalanced | LatexTree.java:101-105 | With bracket-free labels, the children's concatenated code is balanced in every prefix. |
| LatexTreeProperties.RenderPeak | LatexTree.java:96-109 | With bracket-free labels, the deepest bracket nesting reached by any prefix of the output equals `Height(root)`, the height of the tree of slots: an absent child counts as one level, so `A` with a single null child reaches depth 2. |
| LatexTreeProperties.PeakIsMaximum | LatexTree.java:96-109 | `Peak(s)`, the depth measure `RenderPeak` uses, is the largest bracket depth (opened minus closed) over all prefixes of `s`, and some prefix reaches it. |
| LatexTreeProperties.RenderInjective | LatexTree.java:96-109 | With bracket-free labels, equal output means equal trees. Labels, child order and absent slots can all be read back from the nesting. |
| LatexTreeProperties.RenderSeqInjective | LatexTree.java:101-105 | With bracket-free labels, equal children's code means equal child lists. |
| LatexTreeProperties.BlockPrefixFree | LatexTree.java:103-105 | One child's block cannot be a proper prefix of another's, so the concatenation splits back into the same blocks. |
| LatexTreeProperties.RenderSeqSplit | LatexTree.java:103-105 | Order preservation: child `i`'s expression appears as one contiguous piece. It comes right after the earlier children's code and right before the later children's code. |
| LatexTreeProperties.ChildPosition | LatexTree.java:100-107 | Inside a present node's expression, child `i`'s expression starts at offset 4 + label length + length of the earlier children's code. |
| LatexTreeProperties.NodeLayout | LatexTree.java:100-107 | For any label, a present node's expression has length 6 + label + children's code. The label sits at offset 3 and is followed by one space. Next comes the first child's `[`, or for a node with no children a second space and then `]`. The children's code sits between that space and the closing ` ]`. When the label has no brackets, that stretch holds no bracket. |
| LatexTreeProperties.LeafExample | LatexTree.java:101-107 | A node labelled `5` with no children renders as `[ .5  ]`, with two spaces before `]`. |
| LatexTreeProperties.AbsentChildExample | LatexTree.java:97-107 | Root `A` with children `[leaf B, null]` renders as `[ .A [ .B  ][ .$\varnothing$ ] ]`. |
| LatexTreeProperties.AbsentRootExample | LatexTree.java:85-98 | A null root gives `TREE_HEADER + [ .$\varnothing$ ] + TREE_FOOTER`. |
| LatexTreeNode.SlotsSplit | LatexTreeNode.java:20-27 | A tree's slots are its present nodes plus its absent (null) children. |

## Left out

- Filesystem effects of `makeFile` (LatexTree.java:70-75) are not modelled: `mkdir latex` and `touch` run as subprocesses, plus opening, printing and closing the writer. The model returns the path and content the file would get. Directory creation, overwrite versus append, concurrent writers and `IOException` propagation are not captured.
- Render, GenerateTreeCodeHelp: a `null` children list (the for-each at LatexTree.java:103 throws `NullPointerException`) and stack exhaustion on very deep trees (the recursion at LatexTree.java:104) are not modelled. The `seq<Tree>` field cannot be null and the functions are total, so the model always yields a string.
- Null labels (which Java prints as `null`) and cyclic or infinite child lists cannot occur. The datatype rules them out, and the code does not handle them.
- LaTeX escaping and typesetting validity are not modelled: the code does no escaping, and whether the output typesets is up to external tools. The structural properties (bracket counts, balance, height, injectivity) assume labels with no `[` or `]`. Without that assumption they do not hold.
- Document-level bracket count: the bracket facts are proved for the tree expression, and `MakeFile` places that expression exactly between the fixed headers and footers. The model does not prove that those fixed boilerplate strings contain no brackets.
- Java strings are UTF-16. Here a string is a sequence of Dafny characters, which makes no difference to concatenation.
