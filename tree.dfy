/**
 * The renderer itself: the `Node` objects that link each entry to its parent,
 * the line one node draws, and the traversal that builds one generation of
 * nodes at a time, draws them and descends into directories. The writer is
 * the sequence of strings written to it so far.
 */
module Tree {
  import opened FileSystem
  import opened Ordering
  import opened LineFormat
  import opened TreeSpec

  /** `strings.Count(s, sep)` for a one-character separator. */
  function CountChar(s: string, c: char): (n: nat)
    ensures n <= |s|
    ensures n == 0 <==> c !in s
  {
    if s == [] then 0 else (if s[0] == c then 1 else 0) + CountChar(s[1..], c)
  }

  lemma {:induction false} CountCharConcat(a: string, b: string, c: char)
    ensures CountChar(a + b, c) == CountChar(a, c) + CountChar(b, c)
    decreases |a|
  {
    if a != [] {
      assert (a + b)[1..] == a[1..] + b;
      CountCharConcat(a[1..], b, c);
    } else {
      assert a + b == b;
    }
  }

  /**
   * `Node`: a parent pointer, the children by position, the position among
   * the siblings (-1 for the root), the file information and the path from
   * the root's name. Only `childs` is ever updated. `ancestors` is the chain
   * of parents up to the blank node the root hangs from.
   */
  class Node {
    const parent: Node?
    var childs: seq<Node?>
    const index: int
    const info: FileInfo
    const fullPath: string
    ghost const ancestors: seq<Node>

    /**
     * The shape the constructors give a node: the blank node has no parent;
     * the root hangs from the blank node and its path is its name; any other
     * node sits at a position >= 0 below a non-blank parent and its path is
     * the parent's path, `/`, and its name. No name contains `/`.
     */
    ghost predicate Linked()
      decreases |ancestors|
    {
      if parent == null then ancestors == []
      else
        && ancestors == [parent] + parent.ancestors
        && parent.Linked()
        && '/' !in info.name
        && if index == -1 then parent.parent == null && fullPath == info.name
           else index >= 0 && parent.parent != null && fullPath == parent.fullPath + "/" + info.name
    }

    /** The zero `Node{}` that `CreateRootNodeFromFileInfo` uses as the root's parent. */
    constructor Blank()
      ensures parent == null && childs == [] && index == 0 && fullPath == "" && ancestors == []
      ensures Linked()
    {
      parent := null;
      childs := [];
      index := 0;
      info := FileInfo("", false, 0);
      fullPath := "";
      ancestors := [];
    }

    /** `CreateRootNodeFromFileInfo`. */
    constructor Root(fileInfo: FileInfo)
      ensures parent != null && fresh(parent) && parent.parent == null && parent.childs == []
      ensures childs == [] && index == -1 && info == fileInfo && fullPath == fileInfo.name
      ensures '/' !in fileInfo.name ==> Linked()
    {
      var blank := new Node.Blank();
      parent := blank;
      childs := [];
      index := -1;
      info := fileInfo;
      fullPath := fileInfo.name;
      ancestors := [blank];
    }

    /** `CreateNodeFromFileInfo`. */
    constructor Child(parent: Node, index: int, fileInfo: FileInfo)
      ensures this.parent == parent && this.index == index && info == fileInfo && childs == []
      ensures fullPath == parent.fullPath + "/" + fileInfo.name
      ensures ancestors == [parent] + parent.ancestors
      ensures parent.Linked() && parent.parent != null && index >= 0 && '/' !in fileInfo.name ==> Linked()
    {
      this.parent := parent;
      childs := [];
      this.index := index;
      info := fileInfo;
      fullPath := parent.fullPath + "/" + fileInfo.name;
      ancestors := [parent] + parent.ancestors;
    }

    /** `IsRootNode`: the root is the one node hanging from the blank node. */
    function IsRootNode(): (r: bool)
      ensures Linked() && parent != null ==> (r <==> parent.parent == null)
    {
      index == -1
    }

    /** The node holds the highest position among its parent's children. */
    predicate IsLast()
      requires parent != null
      reads parent
    {
      index == |parent.childs| - 1
    }

    /** `GetDrawChar`: the corner glyph exactly for the last child, the tee otherwise. */
    function GetDrawChar(): (c: string)
      requires parent != null
      reads parent
      ensures c == "└" <==> IsLast()
      ensures c == Connector(IsLast())
    {
      if index == |parent.childs| - 1 then "└" else "├"
    }

    /** `GetDepthLevel`: the number of `/` in the path. */
    function GetDepthLevel(): (d: nat)
      ensures d <= |fullPath|
    {
      CountChar(fullPath, '/')
    }

    /** `view` has an entry for every ancestor of this node. */
    ghost predicate Covered(view: Snapshot) {
      forall a | a in ancestors :: a in view
    }

    /**
     * For each node from the root's children down to this one, whether it
     * holds the last position among its parent's children in `view`; empty
     * for the root.
     */
    ghost function ChildFlags(view: Snapshot): (flags: seq<bool>)
      requires Linked() && parent != null && Covered(view)
      ensures |flags| == |ancestors| - 1
      decreases |ancestors|
    {
      assert parent.Linked();
      if index == -1 then [] else parent.ChildFlags(view) + [index == |view[parent]| - 1]
    }

    /** What the line of this node says, in the terms of `LineFormat.Row`. */
    ghost function RowOf(view: Snapshot): Row
      requires Linked() && parent != null && Covered(view)
    {
      Row(info, if index == -1 then [] else parent.ChildFlags(view), index == |view[parent]| - 1)
    }

    /**
     * `GetDrawableString`: walks up the parents once per level above the
     * first, prepending a bar segment for each ancestor that has siblings
     * below it, then appends the connector, the name and, for files, the size.
     */
    method GetDrawableString(ghost view: Snapshot) returns (drawString: string)
      requires Linked() && parent != null && Covered(view) && Agrees(view)
      ensures [drawString] == Render([RowOf(view)])
    {
      drawString := "";
      var drawChar := GetDrawChar();
      var depthLevel: int := GetDepthLevel();
      DepthLevelCountsGenerations(this);
      var parentNode: Node? := parent;
      ghost var suffix: seq<bool> := [];
      var i: int := depthLevel * 4 - 4;
      while i > 0
        invariant IsRootNode() ==> i < 0 && suffix == []
        invariant !IsRootNode() ==>
          && parentNode != null && parentNode.Linked() && parentNode.parent != null && parentNode.Covered(view)
          && i == 4 * |parentNode.ChildFlags(view)|
          && parentNode.ChildFlags(view) + suffix == parent.ChildFlags(view)
        invariant drawString == Prefix(suffix)
        decreases i
      {
        assert parentNode.parent in parentNode.ancestors;
        if parentNode.index != |parentNode.parent.childs| - 1 {
          drawString := "│\t" + drawString;
        } else {
          drawString := "\t" + drawString;
        }
        ghost var isLast := parentNode.index == |view[parentNode.parent]| - 1;
        assert ([isLast] + suffix)[1..] == suffix;
        suffix := [isLast] + suffix;
        parentNode := parentNode.parent;
        i := i - 4;
      }
      var formattedSize := "";
      if !info.isDir {
        formattedSize := " " + FormattedFileSize(info.size);
      }
      drawString := drawString + drawChar + "───" + info.name + formattedSize + "\n";
      assert suffix == RowOf(view).flags;
      assert drawChar == Connector(RowOf(view).isLast);
      assert formattedSize == SizeSuffix(info);
      RenderSingle(RowOf(view));
    }

    /**
     * The nodes `Draw` reaches from this one are linked and recorded in
     * `view`, and `height` bounds how far below this node they go.
     */
    ghost predicate DrawTree(height: nat, view: Snapshot)
      decreases height
    {
      && Linked() && parent != null && Covered(view) && this in view
      && (height == 0 ==> view[this] == [])
      && (height > 0 ==> forall j | 0 <= j < |view[this]| ::
            view[this][j] != null && view[this][j].DrawTree(height - 1, view))
    }

    /** The rows `Draw` writes: this node's own row unless it is the root, then its children's. */
    ghost function Drawn(height: nat, view: Snapshot): seq<Row>
      requires DrawTree(height, view)
      decreases height, 1, 0
    {
      (if index == -1 then [] else [RowOf(view)]) + DrawnChildren(height, view, 0)
    }

    ghost function DrawnChildren(height: nat, view: Snapshot, i: nat): seq<Row>
      requires DrawTree(height, view) && i <= |view[this]|
      decreases height, 0, |view[this]| - i
    {
      if i == |view[this]| then []
      else view[this][i].Drawn(height - 1, view) + DrawnChildren(height, view, i + 1)
    }

    /** `Draw`: writes this node's line unless it is the root, then draws each child in position order. */
    method Draw(writer: seq<string>, ghost height: nat, ghost view: Snapshot) returns (written: seq<string>)
      requires DrawTree(height, view) && Agrees(view)
      ensures written == writer + Render(Drawn(height, view))
      decreases height, 1
    {
      ghost var chunks := DrawnLines(this, height, view);
      written := writer;
      if !IsRootNode() {
        var s := GetDrawableString(view);
        written := written + [s];
      }
      written := DrawChildren(written, height, view, chunks);
    }

    /**
     * The loop of `Draw`: each child in position order draws itself and
     * its descendants. `chunks` are the blocks of lines the children write.
     */
    method DrawChildren(writer: seq<string>, ghost height: nat, ghost view: Snapshot, ghost chunks: seq<seq<string>>)
      returns (written: seq<string>)
      requires DrawTree(height, view) && Agrees(view)
      requires |chunks| == |view[this]|
      requires forall j | 0 <= j < |chunks| ::
        && height > 0 && view[this][j] != null && view[this][j].DrawTree(height - 1, view)
        && chunks[j] == Render(view[this][j].Drawn(height - 1, view))
      ensures written == writer + Flatten(chunks)
      decreases height, 0
    {
      written := writer;
      assert chunks[0..] == chunks;
      var i := 0;
      while i < |childs|
        invariant i <= |childs| == |chunks|
        invariant written + Flatten(chunks[i..]) == writer + Flatten(chunks)
      {
        WriteBlock(written, chunks, i);
        written := childs[i].Draw(written, height - 1, view);
        i := i + 1;
      }
      assert chunks[i..] == [];
    }
  }

  /** The lines `Draw` writes: the node's own line unless it is the root, then one block per child. */
  lemma DrawnLines(n: Node, height: nat, view: Snapshot) returns (chunks: seq<seq<string>>)
    requires n.DrawTree(height, view)
    ensures |chunks| == |view[n]|
    ensures forall j | 0 <= j < |chunks| ::
      && height > 0 && view[n][j] != null && view[n][j].DrawTree(height - 1, view)
      && chunks[j] == Render(view[n][j].Drawn(height - 1, view))
    ensures Render(n.Drawn(height, view)) == (if n.index == -1 then [] else Render([n.RowOf(view)])) + Flatten(chunks)
  {
    chunks := RenderDrawnChildren(n, height, view, 0);
    var own: seq<Row> := if n.index == -1 then [] else [n.RowOf(view)];
    RenderConcat(own, n.DrawnChildren(height, view, 0));
  }

  /**
   * The lines of the children of `n` from position `i` on, one block per
   * child, each block being what drawing that child writes.
   */
  lemma {:induction false} RenderDrawnChildren(n: Node, height: nat, view: Snapshot, i: nat)
    returns (chunks: seq<seq<string>>)
    requires n.DrawTree(height, view) && i <= |view[n]|
    ensures |chunks| == |view[n]| - i
    ensures forall j | 0 <= j < |chunks| ::
      && height > 0 && view[n][i + j] != null && view[n][i + j].DrawTree(height - 1, view)
      && chunks[j] == Render(view[n][i + j].Drawn(height - 1, view))
    ensures Render(n.DrawnChildren(height, view, i)) == Flatten(chunks)
    decreases |view[n]| - i
  {
    if i == |view[n]| {
      chunks := [];
    } else {
      var rest := RenderDrawnChildren(n, height, view, i + 1);
      var mine := view[n][i].Drawn(height - 1, view);
      RenderConcat(mine, n.DrawnChildren(height, view, i + 1));
      chunks := [Render(mine)] + rest;
      assert chunks[1..] == rest;
    }
  }

  /**
   * A record of the children lists of some nodes, standing for the heap in
   * the specification functions so that they read no mutable state.
   */
  type Snapshot = map<Node, seq<Node?>>

  /** Every node recorded in `view` holds exactly the recorded children. */
  ghost predicate Agrees(view: Snapshot)
    reads view.Keys
  {
    forall n | n in view :: n.childs == view[n]
  }

  /** The flags of a node depend only on the records of its ancestors. */
  lemma {:induction false} ChildFlagsLocal(n: Node, v1: Snapshot, v2: Snapshot)
    requires n.Linked() && n.parent != null && n.Covered(v1) && n.Covered(v2)
    requires forall a | a in n.ancestors :: v1[a] == v2[a]
    ensures n.ChildFlags(v1) == n.ChildFlags(v2)
    decreases |n.ancestors|
  {
    if n.index != -1 {
      assert n.parent.Linked();
      ChildFlagsLocal(n.parent, v1, v2);
    }
  }

  /** `GetDepthLevel` counts the generations between the root and the node. */
  lemma {:induction false} DepthLevelCountsGenerations(n: Node)
    requires n.Linked() && n.parent != null
    ensures n.GetDepthLevel() == |n.ancestors| - 1
    ensures n.GetDepthLevel() == 0 <==> n.IsRootNode()
    ensures !n.IsRootNode() ==> n.GetDepthLevel() == n.parent.GetDepthLevel() + 1
    decreases |n.ancestors|
  {
    if n.index != -1 {
      DepthLevelCountsGenerations(n.parent);
      CountCharConcat(n.parent.fullPath, "/" + n.info.name, '/');
      CountCharConcat("/", n.info.name, '/');
      assert n.fullPath == n.parent.fullPath + ("/" + n.info.name);
    }
  }

  /**
   * The indentation of a node's line has one segment per generation between
   * the root and the node's parent: the depth level minus one.
   */
  lemma IndentCountsDepth(n: Node, view: Snapshot)
    requires n.Linked() && n.parent != null && n.Covered(view) && !n.IsRootNode()
    ensures |n.RowOf(view).flags| == n.GetDepthLevel() - 1
  {
    DepthLevelCountsGenerations(n);
    assert n.parent.Linked();
  }

  lemma {:induction false} AncestorsLinked(n: Node)
    requires n.Linked()
    ensures forall i | 0 <= i < |n.ancestors| ::
      n.ancestors[i].Linked() && |n.ancestors[i].ancestors| == |n.ancestors| - 1 - i
    decreases |n.ancestors|
  {
    if n.parent != null {
      AncestorsLinked(n.parent);
      forall i | 0 < i < |n.ancestors|
        ensures n.ancestors[i].Linked() && |n.ancestors[i].ancestors| == |n.ancestors| - 1 - i
      {
        assert n.ancestors[i] == n.parent.ancestors[i - 1];
      }
    }
  }

  /** The parent chain has no cycle: a node is never its own ancestor. */
  lemma NotOwnAncestor(n: Node)
    requires n.Linked()
    ensures n !in n.ancestors
  {
    AncestorsLinked(n);
    forall i | 0 <= i < |n.ancestors| ensures n.ancestors[i] != n {
      assert |n.ancestors[i].ancestors| < |n.ancestors|;
    }
  }

  /** The facts `CreateNodeFromFileInfo` fixes for the node at position `j` below `parentNode`. */
  ghost predicate ChildAt(node: Node, parentNode: Node, j: int, e: Entry) {
    && node.parent == parentNode && node.index == j && node.info == e.info
    && node.ancestors == [parentNode] + parentNode.ancestors
    && node.Linked()
  }

  /**
   * `dirTreeWorker`: lists `dir`, keeps the entries the filter lets
   * through, sorts them by name, creates one child node per entry, then,
   * child by child, draws it, descends into it if it is a directory, and
   * clears its slot. The listing error is returned; `dirTree` ignores it.
   * `view` records the children of the ancestors of `parentNode`.
   */
  method DirTreeWorker(parentNode: Node, writer: seq<string>, dir: Entry, printFiles: bool, depthLevel: int,
                       ghost view: Snapshot)
    returns (written: seq<string>, err: Option<FsError>)
    requires parentNode.Linked() && parentNode.parent != null && parentNode.Covered(view) && Agrees(view)
    requires parentNode.childs == []
    requires WellFormed(dir)
    modifies parentNode
    ensures written == writer + Render(Walk(dir, parentNode.ChildFlags(view), printFiles))
    ensures err == if ReadDir(dir).Failure? then Some(ReadDir(dir).error) else None
    ensures |parentNode.childs| == |Generation(dir, printFiles)|
    ensures forall j | 0 <= j < |parentNode.childs| :: parentNode.childs[j] == null
    decreases dir, 2
  {
    var files: seq<Entry>;
    match ReadDir(dir) {
      case Failure(e) =>
        return writer, Some(e);
      case Success(entries) =>
        files := entries;
    }
    var newFiles := FilterFiles(files, printFiles);
    var wrapped := new Entry[|newFiles|](j requires 0 <= j < |newFiles| => newFiles[j]);
    assert wrapped[..] == newFiles;
    SortSlice(wrapped);
    SortedGeneration(dir, printFiles, newFiles, wrapped[..]);
    ghost var nodes, v := CreateChildren(parentNode, wrapped, printFiles, view);
    written := DrawGeneration(parentNode, writer, dir, wrapped, printFiles, depthLevel, nodes, v);
    err := None;
  }

  /** The first loop of `dirTreeWorker`: files are skipped unless `printFiles` is set. */
  method FilterFiles(files: seq<Entry>, printFiles: bool) returns (newFiles: seq<Entry>)
    ensures newFiles == Filter(files, printFiles)
  {
    newFiles := [];
    for k := 0 to |files|
      invariant newFiles == Filter(files[..k], printFiles)
    {
      var fileInfo := files[k];
      assert files[..k + 1][..k] == files[..k];
      if !fileInfo.info.isDir && !printFiles {
        continue;
      }
      newFiles := newFiles + [fileInfo];
    }
    assert files[..|files|] == files;
  }

  /** Sorting the filtered listing gives exactly the generation the specification describes. */
  lemma SortedGeneration(dir: Entry, printFiles: bool, newFiles: seq<Entry>, sorted: seq<Entry>)
    requires WellFormed(dir) && ReadDir(dir).Success?
    requires newFiles == Filter(ReadDir(dir).value, printFiles)
    requires Ordered(sorted) && multiset(sorted) == multiset(newFiles)
    ensures sorted == Generation(dir, printFiles)
    ensures forall k | k in sorted :: k in dir.contents.entries && Kept(k, printFiles) && '/' !in k.info.name
  {
    var files := ReadDir(dir).value;
    UniqueNamesDetermineEntries(files);
    FilterMembers(files, printFiles);
    assert NamesDetermineEntries(newFiles);
    SortSliceMatchesSortByName(newFiles, sorted);
  }

  /**
   * The second loop of `dirTreeWorker`: one new child node per sorted
   * entry, stored at its position. `nodes` are the new nodes and `v`
   * extends `view` with the new children lists.
   */
  method CreateChildren(parentNode: Node, wrapped: array<Entry>, printFiles: bool, ghost view: Snapshot)
    returns (ghost nodes: seq<Node>, ghost v: Snapshot)
    requires parentNode.Linked() && parentNode.parent != null && parentNode.Covered(view) && Agrees(view)
    requires parentNode.childs == []
    requires forall k | k in wrapped[..] :: Kept(k, printFiles) && '/' !in k.info.name
    modifies parentNode
    ensures |parentNode.childs| == |nodes| == wrapped.Length
    ensures forall j | 0 <= j < |nodes| ::
      && fresh(nodes[j]) && parentNode.childs[j] == nodes[j] && nodes[j].childs == []
      && ChildAt(nodes[j], parentNode, j, wrapped[j])
    ensures parentNode.Covered(v) && Agrees(v) && parentNode.ChildFlags(v) == parentNode.ChildFlags(view)
  {
    NotOwnAncestor(parentNode);
    v := view[parentNode := []];
    ChildFlagsLocal(parentNode, view, v);
    nodes := [];
    for index := 0 to wrapped.Length
      invariant |parentNode.childs| == |nodes| == index
      invariant forall j | 0 <= j < index ::
        && fresh(nodes[j]) && parentNode.childs[j] == nodes[j] && nodes[j].childs == []
        && ChildAt(nodes[j], parentNode, j, wrapped[j]) && nodes[j] in v && v[nodes[j]] == []
      invariant parentNode in v && v[parentNode] == parentNode.childs
      invariant parentNode.Covered(v) && Agrees(v) && parentNode.ChildFlags(v) == parentNode.ChildFlags(view)
    {
      var fileInfo := wrapped[index];
      assert wrapped[index] in wrapped[..];
      if !fileInfo.info.isDir && !printFiles {
        assert false;
        continue;
      }
      var node := new Node.Child(parentNode, index, fileInfo.info);
      parentNode.childs := parentNode.childs + [node];
      nodes := nodes + [node];
      ghost var v': Snapshot := v[parentNode := parentNode.childs][node := []];
      ChildFlagsLocal(parentNode, v, v');
      v := v';
    }
  }

  /**
   * The last loop of `dirTreeWorker`: for each child in position order,
   * draw it, descend into it if it is a directory, then clear its slot.
   */
  method DrawGeneration(parentNode: Node, writer: seq<string>, dir: Entry, wrapped: array<Entry>, printFiles: bool,
                        depthLevel: int, ghost nodes: seq<Node>, ghost v: Snapshot)
    returns (written: seq<string>)
    requires WellFormed(dir)
    requires forall k | k in wrapped[..] :: dir.contents.Listed? && k in dir.contents.entries
    requires parentNode.Linked() && parentNode.parent != null && parentNode.Covered(v) && Agrees(v)
    requires |parentNode.childs| == |nodes| == wrapped.Length
    requires forall j | 0 <= j < |nodes| ::
      && parentNode.childs[j] == nodes[j] && nodes[j].childs == [] && ChildAt(nodes[j], parentNode, j, wrapped[j])
    modifies parentNode, nodes
    ensures written == writer + Render(SiblingRows(dir, wrapped[..], 0, parentNode.ChildFlags(v), printFiles))
    ensures |parentNode.childs| == wrapped.Length
    ensures forall j | 0 <= j < |parentNode.childs| :: parentNode.childs[j] == null
    decreases dir, 1
  {
    ghost var flags := parentNode.ChildFlags(v);
    ghost var chunks := SiblingChunks(dir, wrapped[..], 0, flags, printFiles);
    ghost var anc: Snapshot := map a | a in parentNode.ancestors :: v[a];
    ChildFlagsLocal(parentNode, v, anc);
    NotOwnAncestor(parentNode);
    forall j | 0 <= j < |nodes|
      ensures nodes[j] !in anc && WellFormed(wrapped[j]) && dir.contents.Listed? && wrapped[j] in dir.contents.entries
      ensures chunks[j] == Render(EntryRows(wrapped[j], flags, j == |nodes| - 1, printFiles))
    {
      NotOwnAncestor(nodes[j]);
      assert wrapped[j] in wrapped[..];
      assert wrapped[..][0 + j] == wrapped[j];
    }
    assert parentNode !in anc;
    written := DrawSiblings(parentNode, writer, dir, wrapped, printFiles, depthLevel, nodes, anc, flags, chunks);
  }

  /** The loop itself, writing the precomputed lines of each child in turn. */
  method DrawSiblings(parentNode: Node, writer: seq<string>, ghost dir: Entry, wrapped: array<Entry>, printFiles: bool,
                      depthLevel: int, ghost nodes: seq<Node>, ghost anc: Snapshot, ghost flags: seq<bool>,
                      ghost chunks: seq<seq<string>>)
    returns (written: seq<string>)
    requires parentNode.Linked() && parentNode.parent != null && parentNode.Covered(anc) && Agrees(anc)
    requires parentNode !in anc
    requires parentNode.ChildFlags(anc) == flags
    requires |parentNode.childs| == |nodes| == wrapped.Length == |chunks|
    requires forall j | 0 <= j < |nodes| ::
      && parentNode.childs[j] == nodes[j] && nodes[j].childs == [] && ChildAt(nodes[j], parentNode, j, wrapped[j])
      && nodes[j] !in anc && WellFormed(wrapped[j]) && dir.contents.Listed? && wrapped[j] in dir.contents.entries
      && chunks[j] == Render(EntryRows(wrapped[j], flags, j == |nodes| - 1, printFiles))
    modifies parentNode, nodes
    ensures written == writer + Flatten(chunks)
    ensures |parentNode.childs| == wrapped.Length
    ensures forall j | 0 <= j < |parentNode.childs| :: parentNode.childs[j] == null
    decreases dir, 0
  {
    written := writer;
    assert chunks[0..] == chunks;
    var i := 0;
    while i < |parentNode.childs|
      invariant 0 <= i <= |parentNode.childs| == |nodes|
      invariant forall j | 0 <= j < i :: parentNode.childs[j] == null
      invariant forall j | i <= j < |nodes| :: parentNode.childs[j] == nodes[j] && nodes[j].childs == []
      invariant Agrees(anc)
      invariant written + Flatten(chunks[i..]) == writer + Flatten(chunks)
    {
      var nodePtr: Node := parentNode.childs[i];
      WriteBlock(written, chunks, i);
      written := DrawEntry(parentNode, nodePtr, written, wrapped[i], printFiles, depthLevel, anc, flags, i == |nodes| - 1);
      parentNode.childs := parentNode.childs[i := null];
      i := i + 1;
    }
    assert chunks[i..] == [];
  }

  /**
   * One turn of the last loop of `dirTreeWorker`: `nodePtr` draws its line,
   * then, if it is a directory, the worker writes everything below it.
   */
  method DrawEntry(parentNode: Node, nodePtr: Node, writer: seq<string>, entry: Entry, printFiles: bool,
                   depthLevel: int, ghost anc: Snapshot, ghost flags: seq<bool>, ghost last: bool)
    returns (written: seq<string>)
    requires WellFormed(entry) && ChildAt(nodePtr, parentNode, nodePtr.index, entry) && nodePtr.childs == []
    requires parentNode.parent != null && parentNode.Covered(anc) && Agrees(anc)
    requires parentNode !in anc && nodePtr !in anc
    requires parentNode.ChildFlags(anc) == flags && last == (nodePtr.index == |parentNode.childs| - 1)
    modifies nodePtr
    ensures written == writer + Render(EntryRows(entry, flags, last, printFiles))
    ensures |nodePtr.childs| == if entry.info.isDir then |Generation(entry, printFiles)| else 0
    ensures forall j | 0 <= j < |nodePtr.childs| :: nodePtr.childs[j] == null
    decreases entry, 3
  {
    ghost var w: Snapshot := anc[parentNode := parentNode.childs][nodePtr := []];
    ChildFlagsLocal(parentNode, anc, w);
    ghost var row := Row(entry.info, flags, last);
    ghost var sub := if entry.info.isDir then Walk(entry, flags + [last], printFiles) else [];
    RenderConcat([row], sub);
    written := nodePtr.Draw(writer, 0, w);
    assert nodePtr.Drawn(0, w) == [row];
    if nodePtr.info.isDir {
      var ignored: Option<FsError>;
      assert (writer + Render([row])) + Render(sub) == writer + (Render([row]) + Render(sub));
      written, ignored := DirTreeWorker(nodePtr, written, entry, printFiles, depthLevel + 1, w);
    }
  }

  /**
   * `dirTree`: `root` is what opening and inspecting the starting path
   * yields. On failure nothing is written and the error is returned;
   * otherwise the whole tree below the root is written and no error is
   * reported, whatever happens while listing.
   */
  method DirTree(writer: seq<string>, root: Result<Entry, FsError>, printFiles: bool)
    returns (written: seq<string>, err: Option<FsError>)
    requires root.Success? ==> WellFormed(root.value)
    ensures root.Failure? ==> written == writer && err == Some(root.error)
    ensures root.Success? ==> written == writer + Lines(root.value, printFiles) && err == None
  {
    if root.Failure? {
      return writer, Some(root.error);
    }
    var rootNode := new Node.Root(root.value.info);
    ghost var view: Snapshot := map[rootNode.parent := []];
    var ignored: Option<FsError>;
    written, ignored := DirTreeWorker(rootNode, writer, root.value, printFiles, 1, view);
    err := None;
  }
}
