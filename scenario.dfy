/** Worked examples: ordering mixed-case names, creating "docs/reports/2024" in an empty table, rendering the tree. */
module Scenario {
  import opened Wrappers
  import opened JavaStrings
  import opened Store
  import opened Create
  import opened Render

  const Empty: Tree := Tree(map[], 0)
  const T1: Tree := Tree(map[0 := Node("docs", None)], 1)
  const T2: Tree := Tree(map[0 := Node("docs", None), 1 := Node("reports", Some(0))], 2)
  const T3: Tree := Tree(map[0 := Node("docs", None), 1 := Node("reports", Some(0)), 2 := Node("2024", Some(1))], 3)

  /** "b", "A" and "c" sort as A, b, c: case is ignored, so "A" comes before "b". */
  lemma MixedCaseOrder()
    ensures NameLe("A", "b") && !NameLe("b", "A")
    ensures NameLe("b", "c") && !NameLe("c", "b")
    ensures NameLe("A", "c") && !NameLe("c", "A")
  {
    CompareFirstDifference("A", "b", 0);
    CompareFirstDifference("b", "A", 0);
    CompareFirstDifference("b", "c", 0);
    CompareFirstDifference("c", "b", 0);
    CompareFirstDifference("A", "c", 0);
    CompareFirstDifference("c", "A", 0);
  }

  /** A trailing "/" is dropped: "docs/" names the same segments as "docs". */
  lemma TrailingSlashDropped()
    ensures Split("docs/") == ["docs"]
  {
    SplitTrailingSlash("docs");
    assert "docs" + "/" == "docs/";
  }

  lemma SplitNested()
    ensures Split("docs/reports/2024") == ["docs", "reports", "2024"]
  {
    var parts := ["docs", "reports", "2024"];
    assert Join(parts[2..]) == "2024";
    assert Join(parts[1..]) == "reports/2024";
    assert Join(parts) == "docs/reports/2024";
    SplitJoin(parts);
  }

  /** The last turn: "2024" is missing under reports (id 1), so it is saved as id 2. */
  lemma WalkLast()
    ensures CreateWalk(T2, Some(1), ["2024"], "2024") == Walk(T3, Some(2), false)
  {
    assert Lookup(T2, Some(1), "2024") == None;
    assert Insert(T2, Node("2024", Some(1))) == T3;
    assert ["2024"][1..] == [];
  }

  lemma WalkMiddle()
    ensures CreateWalk(T1, Some(0), ["reports", "2024"], "2024") == Walk(T3, Some(2), false)
  {
    assert Lookup(T1, Some(0), "reports") == None;
    assert Insert(T1, Node("reports", Some(0))) == T2;
    assert ["reports", "2024"][1..] == ["2024"];
    WalkLast();
  }

  /** Every segment is missing, so each one is saved under the one before: ids 0, 1 and 2. */
  lemma CreateNested()
    ensures CreatePath(Empty, "docs/reports/2024") == (T3, Ok(2))
  {
    SplitNested();
    var parts := ["docs", "reports", "2024"];
    assert Lookup(Empty, None, "docs") == None;
    assert Insert(Empty, Node("docs", None)) == T1;
    assert parts[1..] == ["reports", "2024"] && parts[|parts| - 1] == "2024";
    WalkMiddle();
    assert CreateWalk(Empty, None, parts, "2024") == Walk(T3, Some(2), false);
  }

  /** The scan of T3's rows for the subdirectories of p, one row at a time from the highest id. */
  lemma ScanT3(p: Option<Id>)
    ensures ChildrenOf(T3, p) == if p == None then [0] else if p == Some(0) then [1] else if p == Some(1) then [2] else []
  {
    assert ScanChildren(T3, p, 3) == [];
    assert ScanChildren(T3, p, 2) == if p == Some(1) then [2] else [];
    assert ScanChildren(T3, p, 1) == if p == Some(0) then [1] else if p == Some(1) then [2] else [];
  }

  lemma RootsOfT3()
    ensures SortedRoots(T3) == [0]
  {
    ScanT3(None);
    assert SortByName(T3.nodes, [0]) == [0];
  }

  lemma ChildrenOfT3(x: Id, c: Id)
    requires (x, c) == (0, 1) || (x, c) == (1, 2)
    ensures SortedChildren(T3, x) == [c]
  {
    ScanT3(Some(x));
    assert SortByName(T3.nodes, [c]) == [c];
  }

  lemma LeafOfT3()
    ensures SortedChildren(T3, 2) == []
  {
    ScanT3(Some(2));
  }

  /** The subdirectory listing of a directory whose only subdirectory is c is c's rendering. */
  lemma OnlyChildEntries(t: Tree, path: seq<Id>, c: Id, level: nat)
    requires RootPath(t, path) && ChildrenAt(t, path[|path| - 1], [c])
    ensures RootPath(t, path + [c])
    ensures Text(t, ChildrenEntries(t, path, [c], level)) == Text(t, NodeEntries(t, path + [c], level))
  {
    ChildrenStep(t, path, [c], 0, level);
    assert [c][..1] == [c] && [c][..0] == [];
    assert Text(t, ChildrenEntries(t, path, [], level)) == "";
  }

  /** A directory x with one subdirectory c renders as its own line followed by c's rendering. */
  lemma OnlyChildText(t: Tree, path: seq<Id>, x: Id, c: Id, level: nat, below: seq<Id>)
    requires RootPath(t, path) && x == path[|path| - 1] && SortedChildren(t, x) == [c] && below == path + [c]
    ensures RootPath(t, below)
    ensures Text(t, NodeEntries(t, path, level)) == Indent(level) + t.nodes[x].name + "\n" + Text(t, NodeEntries(t, below, level + 1))
  {
    NodeText(t, path, level, [c]);
    OnlyChildEntries(t, path, c, level + 1);
  }

  /** A directory without subdirectories renders as its own line. */
  lemma LeafText(t: Tree, path: seq<Id>, level: nat)
    requires RootPath(t, path) && SortedChildren(t, path[|path| - 1]) == []
    ensures Text(t, NodeEntries(t, path, level)) == Indent(level) + t.nodes[path[|path| - 1]].name + "\n"
  {
    NodeText(t, path, level, []);
  }

  /** A single root-level directory r: the listing is r's rendering. */
  lemma OnlyRootText(t: Tree, r: Id)
    requires SortedRoots(t) == [r]
    ensures RootPath(t, [r]) && RenderForest(t) == Text(t, NodeEntries(t, [r], 0))
  {
    SortedRootsAt(t);
    RootsEntriesUnfold(t, [r]);
    assert [r][..0] == [];
    assert RootsEntries(t, [r]) == NodeEntries(t, [r], 0);
  }

  lemma RootPathOfDocs()
    ensures RootPath(T3, [0])
  {
  }

  lemma RootPathOfReports()
    ensures RootPath(T3, [0, 1])
  {
  }

  lemma RootPathOf2024()
    ensures RootPath(T3, [0, 1, 2])
  {
  }

  lemma TextOf2()
    ensures RootPath(T3, [0, 1, 2]) && Text(T3, NodeEntries(T3, [0, 1, 2], 2)) == "    2024\n"
  {
    RootPathOf2024();
    LeafOfT3();
    LeafText(T3, [0, 1, 2], 2);
    assert Indent(2) == "    ";
  }

  /** reports (id 1) renders as its line followed by the rendering of 2024. */
  lemma Unfold1()
    ensures RootPath(T3, [0, 1]) && RootPath(T3, [0, 1, 2])
    ensures Text(T3, NodeEntries(T3, [0, 1], 1)) == Indent(1) + T3.nodes[1].name + "\n" + Text(T3, NodeEntries(T3, [0, 1, 2], 2))
  {
    RootPathOfReports();
    ChildrenOfT3(1, 2);
    OnlyChildText(T3, [0, 1], 1, 2, 1, [0, 1, 2]);
  }

  lemma Glue(a: string, b: string, c: string, d: string, r: string)
    requires a == "  " && b == "reports" && c == "\n" && d == "    2024\n" && r == a + b + c + d
    ensures r == "  reports\n    2024\n"
  {
  }

  lemma TextOf1()
    ensures RootPath(T3, [0, 1]) && Text(T3, NodeEntries(T3, [0, 1], 1)) == "  reports\n    2024\n"
  {
    Unfold1();
    TextOf2();
    assert Indent(1) == "  ";
    Glue(Indent(1), T3.nodes[1].name, "\n", Text(T3, NodeEntries(T3, [0, 1, 2], 2)), Text(T3, NodeEntries(T3, [0, 1], 1)));
  }

  /** docs (id 0) renders as its line followed by the rendering of reports. */
  lemma Unfold0()
    ensures RootPath(T3, [0]) && RootPath(T3, [0, 1])
    ensures Text(T3, NodeEntries(T3, [0], 0)) == Indent(0) + T3.nodes[0].name + "\n" + Text(T3, NodeEntries(T3, [0, 1], 1))
  {
    RootPathOfDocs();
    ChildrenOfT3(0, 1);
    OnlyChildText(T3, [0], 0, 1, 0, [0, 1]);
  }

  lemma Glue0(a: string, b: string, c: string, d: string, r: string)
    requires a == "" && b == "docs" && c == "\n" && d == "  reports\n    2024\n" && r == a + b + c + d
    ensures r == "docs\n  reports\n    2024\n"
  {
  }

  lemma TextOf0()
    ensures RootPath(T3, [0]) && Text(T3, NodeEntries(T3, [0], 0)) == "docs\n  reports\n    2024\n"
  {
    Unfold0();
    TextOf1();
    Glue0(Indent(0), T3.nodes[0].name, "\n", Text(T3, NodeEntries(T3, [0, 1], 1)), Text(T3, NodeEntries(T3, [0], 0)));
  }

  /** The rendering indents each level by two more spaces. */
  lemma RenderNested()
    ensures RenderForest(T3) == "docs\n  reports\n    2024\n"
  {
    RootsOfT3();
    OnlyRootText(T3, 0);
    TextOf0();
  }
}
