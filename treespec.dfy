/**
 * What the renderer writes, as a pure recursive definition over the
 * filesystem: one generation of children per directory (filtered, then in
 * name order), each child's row followed at once by its whole subtree.
 */
module TreeSpec {
  import opened FileSystem
  import opened Ordering
  import opened LineFormat

  /** The filter of `dirTreeWorker`: non-directories are kept only when files are printed. */
  predicate Kept(e: Entry, printFiles: bool) {
    e.info.isDir || printFiles
  }

  /** The entries the filter loop of `dirTreeWorker` appends, in listing order. */
  function Filter(files: seq<Entry>, printFiles: bool): seq<Entry>
    decreases |files|
  {
    if files == [] then []
    else
      var last := files[|files| - 1];
      var init := files[..|files| - 1];
      Filter(init, printFiles) + (if !last.info.isDir && !printFiles then [] else [last])
  }

  /** The filter keeps every copy of a kept entry and nothing else; with `printFiles` it keeps everything. */
  lemma {:induction false} FilterCounts(files: seq<Entry>, printFiles: bool)
    ensures forall x :: multiset(Filter(files, printFiles))[x] == if Kept(x, printFiles) then multiset(files)[x] else 0
    ensures printFiles ==> Filter(files, printFiles) == files
    decreases |files|
  {
    if files != [] {
      var last := files[|files| - 1];
      var init := files[..|files| - 1];
      assert files == init + [last];
      FilterCounts(init, printFiles);
    }
  }

  lemma FilterMembers(files: seq<Entry>, printFiles: bool)
    ensures forall x :: x in Filter(files, printFiles) <==> x in files && Kept(x, printFiles)
  {
    FilterCounts(files, printFiles);
    forall x ensures x in Filter(files, printFiles) <==> x in files && Kept(x, printFiles) {
      assert x in Filter(files, printFiles) <==> x in multiset(Filter(files, printFiles));
      assert x in files <==> x in multiset(files);
    }
  }

  /**
   * The children a directory gets, in the order their lines appear: the
   * kept entries of a successful listing sorted by name, or nothing when the
   * listing fails.
   */
  function Generation(e: Entry, printFiles: bool): (g: seq<Entry>)
    ensures forall k | k in g :: e.contents.Listed? && k in e.contents.entries && Kept(k, printFiles)
  {
    match ReadDir(e)
    case Failure(_) => []
    case Success(files) =>
      var g := SortByName(Filter(files, printFiles));
      SortByNameSorts(Filter(files, printFiles));
      FilterMembers(files, printFiles);
      assert forall k | k in g :: k in Filter(files, printFiles) by {
        forall k | k in g ensures k in Filter(files, printFiles) {
          assert k in multiset(g);
        }
      }
      g
  }

  /** The generation is in the order `sort.Sort` leaves it. */
  lemma GenerationOrdered(e: Entry, printFiles: bool)
    ensures Ordered(Generation(e, printFiles))
  {
    if ReadDir(e).Success? {
      assert Generation(e, printFiles) == SortByName(Filter(ReadDir(e).value, printFiles));
      SortByNameSorts(Filter(ReadDir(e).value, printFiles));
    }
  }

  /**
   * Which listed entries become children: every one when files are printed,
   * otherwise exactly the directories.
   */
  lemma GenerationMembers(e: Entry, printFiles: bool)
    requires ReadDir(e).Success?
    ensures printFiles ==> multiset(Generation(e, printFiles)) == multiset(e.contents.entries)
    ensures forall k :: k in Generation(e, printFiles) <==> k in e.contents.entries && Kept(k, printFiles)
  {
    var files := e.contents.entries;
    var g := Generation(e, printFiles);
    assert g == SortByName(Filter(files, printFiles));
    SortByNameSorts(Filter(files, printFiles));
    FilterCounts(files, printFiles);
    FilterMembers(files, printFiles);
    forall k ensures k in g <==> k in Filter(files, printFiles) {
      assert k in g <==> k in multiset(g);
    }
  }

  /** The rows of the descendants of `e`, its children's rows carrying `flags`. */
  function Walk(e: Entry, flags: seq<bool>, printFiles: bool): seq<Row>
    decreases e, 1, 0
  {
    SiblingRows(e, Generation(e, printFiles), 0, flags, printFiles)
  }

  /**
   * The rows of siblings `gen[i..]` of one generation under `dir`, each
   * sibling with its subtree, in position order.
   */
  function SiblingRows(dir: Entry, gen: seq<Entry>, i: nat, flags: seq<bool>, printFiles: bool): seq<Row>
    requires i <= |gen|
    requires forall k | k in gen :: dir.contents.Listed? && k in dir.contents.entries
    decreases dir, 0, |gen| - i
  {
    if i == |gen| then []
    else
      assert gen[i] in gen && gen[i] in dir.contents.entries;
      EntryRows(gen[i], flags, i == |gen| - 1, printFiles) + SiblingRows(dir, gen, i + 1, flags, printFiles)
  }

  /**
   * The row of entry `e`, drawn with `flags` and as the last sibling or not,
   * then, for a directory, the rows of its subtree.
   */
  function EntryRows(e: Entry, flags: seq<bool>, last: bool, printFiles: bool): seq<Row>
    decreases e, 2
  {
    [Row(e.info, flags, last)] + (if e.info.isDir then Walk(e, flags + [last], printFiles) else [])
  }

  /** The lines of the siblings from position `i` on, one block per sibling and its subtree. */
  lemma {:induction false} SiblingChunks(dir: Entry, gen: seq<Entry>, i: nat, flags: seq<bool>, printFiles: bool)
    returns (chunks: seq<seq<string>>)
    requires i <= |gen|
    requires forall k | k in gen :: dir.contents.Listed? && k in dir.contents.entries
    ensures |chunks| == |gen| - i
    ensures forall j | 0 <= j < |chunks| ::
      chunks[j] == Render(EntryRows(gen[i + j], flags, i + j == |gen| - 1, printFiles))
    ensures Render(SiblingRows(dir, gen, i, flags, printFiles)) == Flatten(chunks)
    decreases |gen| - i
  {
    if i == |gen| {
      chunks := [];
    } else {
      var rest := SiblingChunks(dir, gen, i + 1, flags, printFiles);
      var mine := EntryRows(gen[i], flags, i == |gen| - 1, printFiles);
      RenderConcat(mine, SiblingRows(dir, gen, i + 1, flags, printFiles));
      chunks := [Render(mine)] + rest;
      assert chunks[1..] == rest;
    }
  }

  /**
   * Pre-order, seen from one entry: its own row comes first, and every row
   * after it in its block lies in its subtree, one level deeper or more.
   */
  lemma EntryRowsPreOrder(e: Entry, flags: seq<bool>, last: bool, printFiles: bool)
    ensures EntryRows(e, flags, last, printFiles)[0] == Row(e.info, flags, last)
    ensures forall r | r in EntryRows(e, flags, last, printFiles)[1..] ::
      |r.flags| > |flags| && r.flags[..|flags| + 1] == flags + [last]
    ensures !e.info.isDir ==> EntryRows(e, flags, last, printFiles) == [Row(e.info, flags, last)]
  {
    var rows := EntryRows(e, flags, last, printFiles);
    if e.info.isDir {
      WalkFlagsExtend(e, flags + [last], printFiles);
      assert rows[1..] == Walk(e, flags + [last], printFiles);
    }
  }

  /** Everything rendered below the root `root`; the root itself has no line. */
  function Lines(root: Entry, printFiles: bool): seq<string> {
    Render(Walk(root, [], printFiles))
  }

  /** With files left out, every rendered row is a directory. */
  lemma {:induction false} WalkDirectoriesOnly(e: Entry, flags: seq<bool>)
    ensures forall r | r in Walk(e, flags, false) :: r.info.isDir
    decreases e, 1, 0
  {
    SiblingRowsDirectoriesOnly(e, Generation(e, false), 0, flags);
  }

  lemma {:induction false} SiblingRowsDirectoriesOnly(dir: Entry, gen: seq<Entry>, i: nat, flags: seq<bool>)
    requires i <= |gen|
    requires forall k | k in gen :: dir.contents.Listed? && k in dir.contents.entries && Kept(k, false)
    ensures forall r | r in SiblingRows(dir, gen, i, flags, false) :: r.info.isDir
    decreases dir, 0, |gen| - i
  {
    if i < |gen| {
      var last := i == |gen| - 1;
      assert gen[i] in gen;
      WalkDirectoriesOnly(gen[i], flags + [last]);
      SiblingRowsDirectoriesOnly(dir, gen, i + 1, flags);
    }
  }

  /** Every row below `e` carries the flags of all its ancestors, outermost first. */
  lemma {:induction false} WalkFlagsExtend(e: Entry, flags: seq<bool>, printFiles: bool)
    ensures forall r | r in Walk(e, flags, printFiles) :: |r.flags| >= |flags| && r.flags[..|flags|] == flags
    decreases e, 1, 0
  {
    SiblingRowsFlagsExtend(e, Generation(e, printFiles), 0, flags, printFiles);
  }

  lemma {:induction false} SiblingRowsFlagsExtend(dir: Entry, gen: seq<Entry>, i: nat, flags: seq<bool>, printFiles: bool)
    requires i <= |gen|
    requires forall k | k in gen :: dir.contents.Listed? && k in dir.contents.entries
    ensures forall r | r in SiblingRows(dir, gen, i, flags, printFiles) ::
      |r.flags| >= |flags| && r.flags[..|flags|] == flags
    decreases dir, 0, |gen| - i
  {
    if i < |gen| {
      var last := i == |gen| - 1;
      assert gen[i] in gen;
      WalkFlagsExtend(gen[i], flags + [last], printFiles);
      SiblingRowsFlagsExtend(dir, gen, i + 1, flags, printFiles);
      assert (flags + [last])[..|flags|] == flags;
      forall r | r in Walk(gen[i], flags + [last], printFiles)
        ensures |r.flags| >= |flags| && r.flags[..|flags|] == flags
      {
        assert r.flags[..|flags|] == r.flags[..|flags| + 1][..|flags|];
      }
    }
  }

  /** The rows standing at one depth, in order. */
  function RowsAtDepth(rows: seq<Row>, depth: nat): seq<Row> {
    if rows == [] then []
    else (if |rows[0].flags| == depth then [rows[0]] else []) + RowsAtDepth(rows[1..], depth)
  }

  lemma {:induction false} RowsAtDepthConcat(a: seq<Row>, b: seq<Row>, depth: nat)
    ensures RowsAtDepth(a + b, depth) == RowsAtDepth(a, depth) + RowsAtDepth(b, depth)
  {
    if a != [] {
      assert (a + b)[1..] == a[1..] + b;
      RowsAtDepthConcat(a[1..], b, depth);
    } else {
      assert a + b == b;
    }
  }

  lemma {:induction false} RowsAtDepthNone(rows: seq<Row>, depth: nat)
    requires forall r | r in rows :: |r.flags| > depth
    ensures RowsAtDepth(rows, depth) == []
  {
    if rows != [] {
      assert rows[0] in rows;
      RowsAtDepthNone(rows[1..], depth);
    }
  }

  /** The rows one generation contributes at its own depth: positions 0..n-1, only the last one marked last. */
  function GenerationRows(gen: seq<Entry>, flags: seq<bool>): (rows: seq<Row>)
    ensures |rows| == |gen|
    ensures forall i | 0 <= i < |gen| :: rows[i] == Row(gen[i].info, flags, i == |gen| - 1)
  {
    seq(|gen|, i requires 0 <= i < |gen| => Row(gen[i].info, flags, i == |gen| - 1))
  }

  lemma SubtreeBelowDepth(child: Entry, flags: seq<bool>, last: bool, printFiles: bool)
    ensures RowsAtDepth(Walk(child, flags + [last], printFiles), |flags|) == []
  {
    WalkFlagsExtend(child, flags + [last], printFiles);
    RowsAtDepthNone(Walk(child, flags + [last], printFiles), |flags|);
  }

  /** Of the rows one entry contributes, only its own line stands at its depth. */
  lemma EntryRowsAtDepth(e: Entry, flags: seq<bool>, last: bool, printFiles: bool)
    ensures RowsAtDepth(EntryRows(e, flags, last, printFiles), |flags|) == [Row(e.info, flags, last)]
  {
    var row := Row(e.info, flags, last);
    var sub := if e.info.isDir then Walk(e, flags + [last], printFiles) else [];
    if e.info.isDir {
      SubtreeBelowDepth(e, flags, last, printFiles);
    }
    assert RowsAtDepth(sub, |flags|) == [];
    RowsAtDepthConcat([row], sub, |flags|);
    assert RowsAtDepth([row], |flags|) == [row];
  }

  lemma {:induction false} SiblingRowsAtDepth(dir: Entry, gen: seq<Entry>, i: nat, flags: seq<bool>, printFiles: bool)
    requires i <= |gen|
    requires forall k | k in gen :: dir.contents.Listed? && k in dir.contents.entries
    ensures RowsAtDepth(SiblingRows(dir, gen, i, flags, printFiles), |flags|) == GenerationRows(gen, flags)[i..]
    decreases |gen| - i
  {
    var all := GenerationRows(gen, flags);
    if i < |gen| {
      var last := i == |gen| - 1;
      var own := EntryRows(gen[i], flags, last, printFiles);
      var rest := SiblingRows(dir, gen, i + 1, flags, printFiles);
      assert SiblingRows(dir, gen, i, flags, printFiles) == own + rest;
      RowsAtDepthConcat(own, rest, |flags|);
      EntryRowsAtDepth(gen[i], flags, last, printFiles);
      SiblingRowsAtDepth(dir, gen, i + 1, flags, printFiles);
      assert all[i..] == [all[i]] + all[i + 1..];
    } else {
      assert all[i..] == [];
    }
  }

  /**
   * Pre-order, seen from one directory: among all rows below `e`, those at
   * the depth of its children are exactly its children, in sorted order, and
   * only the last of them gets the corner connector.
   */
  lemma ChildrenRowsInOrder(e: Entry, flags: seq<bool>, printFiles: bool)
    ensures RowsAtDepth(Walk(e, flags, printFiles), |flags|) == GenerationRows(Generation(e, printFiles), flags)
  {
    SiblingRowsAtDepth(e, Generation(e, printFiles), 0, flags, printFiles);
  }

  /** Of n >= 1 siblings exactly one, the one at the highest position, is drawn as the last. */
  lemma ExactlyOneLastSibling(gen: seq<Entry>, flags: seq<bool>)
    requires |gen| >= 1
    ensures (set i | 0 <= i < |gen| && GenerationRows(gen, flags)[i].isLast) == {|gen| - 1}
  {
  }

  /** A directory whose listing fails, or that keeps no entries, contributes no line. */
  lemma EmptyGenerationNoLines(e: Entry, flags: seq<bool>, printFiles: bool)
    requires ReadDir(e).Failure? || Filter(ReadDir(e).value, printFiles) == []
    ensures Walk(e, flags, printFiles) == []
  {
  }

  /** The parent passed to `SiblingRows` only bounds its recursion; the rows do not depend on it. */
  lemma {:induction false} SiblingRowsParentIrrelevant(d1: Entry, d2: Entry, gen: seq<Entry>, i: nat, flags: seq<bool>, printFiles: bool)
    requires i <= |gen|
    requires forall k | k in gen :: d1.contents.Listed? && k in d1.contents.entries
    requires forall k | k in gen :: d2.contents.Listed? && k in d2.contents.entries
    ensures SiblingRows(d1, gen, i, flags, printFiles) == SiblingRows(d2, gen, i, flags, printFiles)
    decreases |gen| - i
  {
    if i < |gen| {
      SiblingRowsParentIrrelevant(d1, d2, gen, i + 1, flags, printFiles);
    }
  }

  /**
   * The output does not depend on the order in which the operating system
   * lists a directory: listings with the same entries render the same rows.
   */
  lemma ListingOrderIrrelevant(info: FileInfo, l1: seq<Entry>, l2: seq<Entry>, flags: seq<bool>, printFiles: bool)
    requires multiset(l1) == multiset(l2) && UniqueNames(l1)
    ensures Walk(Entry(info, Listed(l1)), flags, printFiles) == Walk(Entry(info, Listed(l2)), flags, printFiles)
  {
    var d1, d2 := Entry(info, Listed(l1)), Entry(info, Listed(l2));
    if info.isDir {
      var f1, f2 := Filter(l1, printFiles), Filter(l2, printFiles);
      FilterCounts(l1, printFiles);
      FilterCounts(l2, printFiles);
      assert multiset(f1) == multiset(f2);
      SortByNameSorts(f1);
      SortByNameSorts(f2);
      UniqueNamesDetermineEntries(l1);
      FilterMembers(l1, printFiles);
      assert NamesDetermineEntries(f1);
      SortSliceMatchesSortByName(f1, SortByName(f1));
      SortSliceMatchesSortByName(f1, SortByName(f2));
      assert Generation(d1, printFiles) == Generation(d2, printFiles);
      SiblingRowsParentIrrelevant(d1, d2, Generation(d1, printFiles), 0, flags, printFiles);
    }
  }
}
