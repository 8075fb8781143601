# A verified model of a Go `tree` clone

The program prints a directory hierarchy as box-drawing lines, one line per
entry below the starting directory:

```
├───a
│	├───b.txt (12b)
│	└───c
└───d.txt (empty)
```

The model covers how lines are formatted, how siblings are filtered and
ordered, and how the `Node` objects are built and traversed. The central
result is about `dirTree`. Its imperative traversal builds one generation of
child nodes at a time, draws each child, descends into directories and
clears child slots as it goes. The model proves that this traversal writes
exactly the lines of a pure recursive definition of the output
(`TreeSpec.Lines`). Properties of that definition are proved separately:
- depth-first pre-order;
- name order among siblings;
- exactly one corner glyph per generation;
- no output for unreadable directories;
- independence from the order in which the operating system lists a directory.

Files:

- `decimal.dfy`: `%d` for non-negative numbers, with its inverse.
- `filesystem.dfy`: the filesystem as a value. It covers what `os.FileInfo`
  reports and whether listing a directory succeeds.
- `lineformat.dfy`: the text of one line (`getFormattedFileSize`, the
  connector, the indentation) and rendering a sequence of rows.
- `ordering.dfy`: `osFileInfoSlice` (`Less`, `Swap`) and the in-place sort.
- `treespec.dfy`: the pure definition of the whole output and its properties.
- `tree.dfy`: the `Node` class and the imperative traversal (`Draw`,
  `dirTreeWorker`, `dirTree`), each method proved against `treespec.dfy`.

The writer is the sequence of strings written so far. Each drawing method
takes it and returns it extended.

Two ghost devices help the proofs:
- Each node carries the ghost chain of its ancestors (`ancestors`).
- The traversal carries a ghost `Snapshot`, a record of the children lists of
  the nodes above the one being drawn. It lets the specification functions
  talk about the heap without reading it.

## Model

| member | source | states |
|---|---|---|
| LineFormat.FormattedFileSize | main.go:46-52 | a size <= 0 gives exactly `(empty)`; a positive size gives `(`, digits without a leading zero whose decimal value is the size, then `b)` |
| Decimal.NatToDecimal | main.go:48 | the digits of `%d` are non-empty decimal digits and start with `0` only for zero |
| Decimal.DecimalRoundTrip | main.go:48 | reading back the digits `NatToDecimal` writes gives the number |
| Decimal.NatToDecimalInjective | main.go:48 | two sizes are written the same exactly when they are equal |
| Ordering.NameLeqIsLexicographic | main.go:36 | the two-element `sort.StringsAreSorted` test holds exactly when the first name is a prefix of the second or is smaller at the first difference |
| Ordering.Less | main.go:28-44 | `osFileInfoSlice.Less`: compares the two entries by name alone with `NameLeq`; whether either is a directory plays no part |
| Ordering.NameLeqTotal | main.go:28-44 | any two names are comparable in at least one direction |
| Ordering.NameLeqTransitive | main.go:28-44 | the name order is transitive |
| Ordering.NameLeqAntisymmetric | main.go:28-44 | names ordered both ways are equal |
| Ordering.Swap | main.go:27 | exchanges the two positions and changes nothing else |
| Ordering.SortSlice | main.go:205-206 | after `sort.Sort` the slice is ordered by name and is a permutation of what it held |
| Ordering.InsertByNameSorts | main.go:205-206 | inserting into an ordered sequence keeps it ordered and adds exactly the one element |
| Ordering.SortByNameSorts | main.go:205-206 | the reference sort yields an ordered permutation of its input |
| Ordering.OrderedPermutationUnique | main.go:205-206 | when names determine entries, two ordered permutations of the same entries are equal, so the sorted order does not depend on the sorting algorithm |
| Ordering.SortSliceMatchesSortByName | main.go:205-206 | what the in-place sort leaves is exactly the reference sort of its input |
| FileSystem.ReadDir | main.go:191 | listing succeeds exactly for a readable directory and then yields its entries; a non-directory fails |
| TreeSpec.FilterCounts | main.go:196-203 | the filter keeps every copy of a directory, keeps files only when files are printed, and with files printed returns the listing unchanged |
| TreeSpec.FilterMembers | main.go:196-203 | an entry survives the filter exactly when it was listed and is a directory or files are printed |
| TreeSpec.Generation | main.go:191-214 | every child of a directory is one of its listed entries that the filter keeps |
| TreeSpec.GenerationOrdered | main.go:205-206 | the children of a directory are in name order |
| TreeSpec.GenerationMembers | main.go:196-214 | with files printed every listed entry becomes a child; otherwise the children are exactly the listed directories |
| TreeSpec.EntryRowsPreOrder | main.go:216-226 | an entry's own row comes first in its block; every further row in the block lies in its subtree, one level deeper, below it in the ancestor flags |
| TreeSpec.SiblingChunks | main.go:216-226 | the lines of a generation are the concatenation, in position order, of one block per sibling (its line and its subtree) |
| TreeSpec.WalkDirectoriesOnly | main.go:196-203 | without files printed, every rendered row is a directory |
| TreeSpec.WalkFlagsExtend | main.go:155-163 | every row below an entry carries the entry's ancestor flags as the start of its own |
| TreeSpec.SiblingRowsAtDepth | main.go:207-226 | among the rows of a generation with its subtrees, those at the generation's depth are its siblings in position order, only the last one marked last |
| TreeSpec.ChildrenRowsInOrder | main.go:207-226 | among all rows below a directory, those at its children's depth are exactly its children in sorted order, only the last drawn with the corner |
| TreeSpec.ExactlyOneLastSibling | main.go:136-145 | of n >= 1 siblings exactly one, the one at the highest position, is drawn as the last |
| TreeSpec.EmptyGenerationNoLines | main.go:191-194 | an unreadable directory, or one whose entries are all filtered out, contributes no line |
| TreeSpec.ListingOrderIrrelevant | main.go:205-206 | two listings with the same entries in any order render the same rows |
| LineFormat.ParseIndentOfPrefix | main.go:155-163 | the indentation segments are read back exactly as the ancestor flags they were written from |
| LineFormat.RowLineIndent | main.go:170 | every line reads back as its ancestor flags followed by the connector, the rule, the name, the size annotation and the newline |
| LineFormat.RowLine | main.go:155-170 | the layout of one line: the indentation segments for the ancestor flags, outermost first, then the connector, `───`, the name, for files a space and the size annotation, and one newline |
| Tree.CountChar | main.go:176 | `strings.Count` for one character: the count is at most the length and is zero exactly when the character does not occur |
| Tree.CountCharConcat | main.go:176 | counting `/` is additive over concatenation |
| Tree.Node.Blank | main.go:110 | the zero `Node{}` the root hangs from: no parent, no children, an empty path, and linked |
| Tree.Node.Root | main.go:108-120 | the root has index -1, no children, its own name as its path, and hangs from a fresh blank node without a parent |
| Tree.Node.Child | main.go:79-91 | a child records its parent, position and file information, has no children, and its path is the parent's path, `/`, and its name |
| Tree.Node.IsRootNode | main.go:75-77 | on a linked node, it holds exactly for the node hanging from the blank node |
| Tree.Node.GetDrawChar | main.go:136-145 | the corner glyph exactly when the node holds the highest position among its parent's children, the tee otherwise |
| Tree.Node.GetDepthLevel | main.go:175-177 | `GetDepthLevel` is the number of `/` in the path, so it never exceeds the path's length |
| Tree.DepthLevelCountsGenerations | main.go:175-177 | the depth level is the number of generations below the root: 0 exactly for the root, the parent's depth plus one for any other node |
| Tree.NotOwnAncestor | main.go:54-61 | following parent pointers never leads back to the node |
| Tree.IndentCountsDepth | main.go:155 | the line of a node below the root has exactly depth level minus one indentation segments |
| Tree.Node.GetDrawableString | main.go:147-173 | the string built by walking up the parents is exactly the rendered line of the node's row: one segment per ancestor below the root, outermost first, then the connector, the name and, for files, the size |
| Tree.Node.Draw | main.go:179-188 | writes the node's line unless it is the root, then what each child draws in position order, appended to what was already written |
| Tree.Node.DrawChildren | main.go:184-187 | the loop appends the children's blocks of lines in position order |
| Tree.DrawnLines | main.go:179-188 | what `Draw` writes splits into the node's own line and one block per child |
| Tree.FilterFiles | main.go:196-203 | the filter loop returns exactly `TreeSpec.Filter` of the listing |
| Tree.SortedGeneration | main.go:205-206 | sorting the filtered listing gives exactly the specified generation |
| Tree.CreateChildren | main.go:207-214 | one fresh child node per sorted entry, stored at its position, each linked below the parent and without children |
| Tree.DrawGeneration | main.go:216-226 | the drawing loop writes exactly the rows of the whole generation with its subtrees, and leaves every slot cleared to nil without shrinking the children list |
| Tree.DrawSiblings | main.go:216-226 | child by child, the loop appends that child's block of lines and clears its slot |
| Tree.DrawEntry | main.go:217-223 | one turn of the loop writes the child's line and then, for a directory, everything below it; afterwards a directory child holds one nil slot per entry of its generation and a file child holds none |
| Tree.DirTreeWorker | main.go:190-229 | writes exactly the rows of the directory's subtree, returns the listing error if listing fails (having written nothing), and leaves one cleared slot per child |
| Tree.DirTree | main.go:231-240 | if opening the root fails, nothing is written and that error is returned; otherwise the whole tree below the root is written and no error is returned |

## Left out

- `main`, argument parsing and `panic` (main.go:12-22) are command-line glue.
- `os.Open`, `file.Stat` and `ioutil.ReadDir` are replaced by the value
  `FileSystem.Entry`. `CreateNodeFromPath` and `CreateRootNodeFromPath` (main.go:93-134)
  become the `root` parameter of `Tree.DirTree`: the result of opening and
  inspecting the starting path.
- `Tree.DirTreeWorker` takes the directory's `Entry` instead of the `path`
  string. The path built at main.go:222 only serves to list the subdirectory.
- `io.Writer` and `fmt.Fprintf` become the returned sequence of written
  strings. Write errors, which the source ignores, are not modelled.
- `fmt.Sprintf` internals: only `%d` on non-negative numbers (`Decimal.NatToDecimal`)
  and the fixed layout of the line are modelled.
- `osFileInfoSlice.Len` is the array's `Length`, used directly by `Ordering.SortSlice`.
- `sort.Sort` internals: the sort is an insertion sort built from `Less` and `Swap`.
  The result is the same: the sort is proved to give an ordered permutation, and
  `Ordering.OrderedPermutationUnique` shows there is only one when names are unique.
- The `map[int]*Node` of children becomes `seq<Node?>` indexed 0..n-1, with `nil` as `null`.
  Clearing a slot keeps the length, as it does for the map.
- `GetParent`, `GetIndex` and `GetInfo` are plain field reads.
- Strings are sequences of code points, not UTF-8 bytes. Byte order on UTF-8
  equals code-point order, and `/` never occurs inside a multi-byte character,
  so name comparison and `strings.Count(fullPath, "/")` agree.
- Names contain no `/` and are unique within a directory (`FileSystem.WellFormed`).
  So a root whose base name is `/` is not modelled.
- `Tree.Node.Root`: the node is proved linked only when its name contains no `/`, for the reason above.
- `Tree.DirTree`: requires the root entry to be well formed in the sense above.
- `Tree.DirTreeWorker`: requires `parentNode` to have no children yet. This is
  how the source calls it: every call receives a freshly created node.
- `Tree.DirTreeWorker`: the `depthLevel` parameter is carried but, as in the source, never used.
- The blank parent `&Node{}` of the root (main.go:110) is modelled with a
  placeholder file information and an empty path.
- The traversal's ghost `view: Snapshot` and the ghost `ancestors` of each node are proof devices with no counterpart in the source.
- The model follows the code where it differs from what a reader might expect of `tree`:
  - a listing error below the root is ignored, not reported (main.go:222, 237);
  - indentation segments are `"│\t"` and `"\t"`, not space-padded (main.go:157-159).
- Each loop of `dirTreeWorker` is its own method (`Tree.FilterFiles`,
  `Tree.CreateChildren`, `Tree.DrawSiblings`), and the loop of `Draw` is
  `Tree.Node.DrawChildren`. This keeps each proof small; the statements and
  their order are those of the source.
