/**
  formatDirectoryStructure / formatDirectory: the root-level directories sorted by name
  ignoring case, each followed by its subdirectories sorted the same way, one line per
  directory, indented by two spaces per level.
*/
module Render {
  import opened Wrappers
  import opened JavaStrings
  import opened Store

  predicate AllIn(nodes: map<Id, Node>, s: seq<Id>) {
    forall i :: 0 <= i < |s| ==> s[i] in nodes
  }

  /** Sorted by the comparator, and among names that compare equal, in increasing id order. */
  ghost predicate NameThenId(nodes: map<Id, Node>, s: seq<Id>)
    requires AllIn(nodes, s)
  {
    forall i, j :: 0 <= i < j < |s| ==>
      && NameLe(nodes[s[i]].name, nodes[s[j]].name)
      && (NameLe(nodes[s[j]].name, nodes[s[i]].name) ==> s[i] < s[j])
  }

  /** Inserts x before the first element it does not sort after. */
  function InsertByName(nodes: map<Id, Node>, x: Id, s: seq<Id>): (r: seq<Id>)
    requires x in nodes && AllIn(nodes, s)
    ensures AllIn(nodes, r) && multiset(r) == multiset(s) + multiset{x}
    decreases |s|
  {
    if s == [] then [x]
    else if NameLe(nodes[x].name, nodes[s[0]].name) then [x] + s
    else
      assert s == [s[0]] + s[1..];
      [s[0]] + InsertByName(nodes, x, s[1..])
  }

  /** `stream().sorted((d1, d2) -> d1.getName().compareToIgnoreCase(d2.getName()))`, a stable sort. */
  function SortByName(nodes: map<Id, Node>, s: seq<Id>): (r: seq<Id>)
    requires AllIn(nodes, s)
    ensures AllIn(nodes, r) && multiset(r) == multiset(s)
    ensures forall y :: y in r <==> y in s
    decreases |s|
  {
    if s == [] then []
    else
      var r := InsertByName(nodes, s[0], SortByName(nodes, s[1..]));
      assert s == [s[0]] + s[1..];
      assert forall y :: y in r <==> y in multiset(r);
      r
  }

  /** x sorted before s[0]: prepending x keeps the order. */
  lemma InsertFront(nodes: map<Id, Node>, x: Id, s: seq<Id>)
    requires x in nodes && AllIn(nodes, s) && NameThenId(nodes, s) && s != []
    requires forall i :: 0 <= i < |s| ==> x < s[i]
    requires NameLe(nodes[x].name, nodes[s[0]].name)
    ensures AllIn(nodes, [x] + s) && NameThenId(nodes, [x] + s)
  {
    var r := [x] + s;
    forall j | 1 <= j < |r|
      ensures NameLe(nodes[x].name, nodes[r[j]].name)
    {
      if j > 1 {
        assert r[j] == s[j - 1];
        NameLeTransitive(nodes[x].name, nodes[s[0]].name, nodes[r[j]].name);
      }
    }
    forall i, j | 0 <= i < j < |r|
      ensures NameLe(nodes[r[i]].name, nodes[r[j]].name)
      ensures NameLe(nodes[r[j]].name, nodes[r[i]].name) ==> r[i] < r[j]
    {
      if i > 0 {
        assert r[i] == s[i - 1] && r[j] == s[j - 1];
      }
    }
  }

  /** s[0] sorted before x: s[0] stays in front of the insertion into the rest. */
  lemma KeepFront(nodes: map<Id, Node>, x: Id, s: seq<Id>, tail: seq<Id>)
    requires x in nodes && AllIn(nodes, s) && NameThenId(nodes, s) && s != []
    requires NameLe(nodes[s[0]].name, nodes[x].name) && !NameLe(nodes[x].name, nodes[s[0]].name)
    requires AllIn(nodes, tail) && NameThenId(nodes, tail)
    requires multiset(tail) == multiset(s[1..]) + multiset{x}
    ensures AllIn(nodes, [s[0]] + tail) && NameThenId(nodes, [s[0]] + tail)
  {
    forall j | 0 <= j < |tail|
      ensures NameLe(nodes[s[0]].name, nodes[tail[j]].name)
      ensures NameLe(nodes[tail[j]].name, nodes[s[0]].name) ==> s[0] < tail[j]
    {
      assert tail[j] in multiset(tail);
      if tail[j] != x {
        assert tail[j] in multiset(s[1..]);
        var k :| 0 <= k < |s[1..]| && s[1..][k] == tail[j];
        assert s[k + 1] == tail[j];
      }
    }
    var r := [s[0]] + tail;
    forall i, j | 0 <= i < j < |r|
      ensures NameLe(nodes[r[i]].name, nodes[r[j]].name)
      ensures NameLe(nodes[r[j]].name, nodes[r[i]].name) ==> r[i] < r[j]
    {
      assert r[j] == tail[j - 1];
      if i > 0 {
        assert r[i] == tail[i - 1];
      }
    }
  }

  lemma {:induction false} InsertKeepsOrder(nodes: map<Id, Node>, x: Id, s: seq<Id>)
    requires x in nodes && AllIn(nodes, s) && NameThenId(nodes, s)
    requires forall i :: 0 <= i < |s| ==> x < s[i]
    ensures NameThenId(nodes, InsertByName(nodes, x, s))
    decreases |s|
  {
    if s != [] {
      if NameLe(nodes[x].name, nodes[s[0]].name) {
        InsertFront(nodes, x, s);
      } else {
        NameLeTotal(nodes[x].name, nodes[s[0]].name);
        assert NameThenId(nodes, s[1..]) by {
          forall i, j | 0 <= i < j < |s[1..]|
            ensures NameLe(nodes[s[1..][i]].name, nodes[s[1..][j]].name)
          {
            assert s[1..][i] == s[i + 1] && s[1..][j] == s[j + 1];
          }
        }
        InsertKeepsOrder(nodes, x, s[1..]);
        KeepFront(nodes, x, s, InsertByName(nodes, x, s[1..]));
      }
    }
  }

  /**
    Sorting a list in increasing id order (the order the store returns) yields the names in
    comparator order, ties kept in id order: the one order a stable sort can produce.
  */
  lemma {:induction false} SortOrder(nodes: map<Id, Node>, s: seq<Id>)
    requires AllIn(nodes, s) && Increasing(s)
    ensures NameThenId(nodes, SortByName(nodes, s))
    decreases |s|
  {
    if s != [] {
      var rest := SortByName(nodes, s[1..]);
      SortOrder(nodes, s[1..]);
      forall i | 0 <= i < |rest|
        ensures s[0] < rest[i]
      {
        assert rest[i] in s[1..];
      }
      InsertKeepsOrder(nodes, s[0], rest);
    }
  }

  /** Two spaces per level, as the loop `for (i = 0; i < level; i++) sb.append("  ")` writes them. */
  function Indent(level: nat): (r: string)
    ensures |r| == 2 * level && forall i :: 0 <= i < |r| ==> r[i] == ' '
  {
    if level == 0 then "" else Indent(level - 1) + "  "
  }

  /** One line of the listing: a directory at a depth. */
  datatype Entry = Entry(id: Id, level: nat)

  function Line(t: Tree, e: Entry): string
    requires e.id in t.nodes
  {
    Indent(e.level) + t.nodes[e.id].name + "\n"
  }

  /** A line is 2 * level spaces, then the directory's name, then one line break. */
  lemma LineShape(t: Tree, e: Entry)
    requires e.id in t.nodes
    ensures var r := Line(t, e);
      && |r| == 2 * e.level + |t.nodes[e.id].name| + 1
      && (forall i :: 0 <= i < 2 * e.level ==> r[i] == ' ')
      && r[2 * e.level..|r| - 1] == t.nodes[e.id].name
      && r[|r| - 1] == '\n'
  {
  }

  predicate EntriesIn(t: Tree, es: seq<Entry>) {
    forall i :: 0 <= i < |es| ==> es[i].id in t.nodes
  }

  /** The text of a list of lines. */
  function Text(t: Tree, es: seq<Entry>): (r: string)
    requires EntriesIn(t, es)
    decreases |es|
  {
    if es == [] then "" else Text(t, es[..|es| - 1]) + Line(t, es[|es| - 1])
  }

  lemma {:induction false} TextAppend(t: Tree, a: seq<Entry>, b: seq<Entry>)
    requires EntriesIn(t, a) && EntriesIn(t, b)
    ensures EntriesIn(t, a + b) && Text(t, a + b) == Text(t, a) + Text(t, b)
    decreases |b|
  {
    if b == [] {
      assert a + b == a;
    } else {
      assert (a + b)[..|a + b| - 1] == a + b[..|b| - 1];
      assert (a + b)[|a + b| - 1] == b[|b| - 1];
      TextAppend(t, a, b[..|b| - 1]);
      assert Text(t, a + b) == Text(t, a + b[..|b| - 1]) + Line(t, b[|b| - 1]);
      assert Text(t, b) == Text(t, b[..|b| - 1]) + Line(t, b[|b| - 1]);
    }
  }

  /** A chain of directories from a root-level one down to the directory being listed. */
  ghost predicate RootPath(t: Tree, path: seq<Id>) {
    && |path| >= 1
    && (forall i :: 0 <= i < |path| ==> path[i] in t.nodes)
    && t.nodes[path[0]].parent == None
    && (forall i :: 1 <= i < |path| ==> t.nodes[path[i]].parent == Some(path[i - 1]))
    && (forall i, j :: 0 <= i < j < |path| ==> path[i] != path[j])
  }

  ghost function Elems(path: seq<Id>): set<Id> {
    set i | 0 <= i < |path| :: path[i]
  }

  /** A subdirectory of the last directory of a root path is not on it, so the listing descends without repeating. */
  lemma ExtendRootPath(t: Tree, path: seq<Id>, c: Id)
    requires RootPath(t, path)
    requires c in t.nodes && t.nodes[c].parent == Some(path[|path| - 1])
    ensures c !in path
    ensures RootPath(t, path + [c])
    ensures t.nodes.Keys - Elems(path + [c]) < t.nodes.Keys - Elems(path)
  {
    forall i | 0 <= i < |path|
      ensures path[i] != c
    {
      if i > 0 {
        assert t.nodes[path[i]].parent == Some(path[i - 1]);
      }
    }
    var p := path + [c];
    assert Elems(p) == Elems(path) + {c} by {
      forall y | y in Elems(p)
        ensures y in Elems(path) + {c}
      {
        var i :| 0 <= i < |p| && p[i] == y;
        if i < |path| {
          assert path[i] == y;
        }
      }
      forall y | y in Elems(path)
        ensures y in Elems(p)
      {
        var i :| 0 <= i < |path| && path[i] == y;
        assert p[i] == y;
      }
      assert p[|path|] == c;
    }
  }

  /** The sorted subdirectories of directory x. */
  function SortedChildren(t: Tree, x: Id): (r: seq<Id>)
    ensures AllIn(t.nodes, r)
    ensures forall y :: y in r <==> y in t.nodes && y < t.next && t.nodes[y].parent == Some(x)
  {
    SortByName(t.nodes, ChildrenOf(t, Some(x)))
  }

  /** The sorted root-level directories. */
  function SortedRoots(t: Tree): (r: seq<Id>)
    ensures AllIn(t.nodes, r)
    ensures forall y :: y in r <==> y in t.nodes && y < t.next && t.nodes[y].parent.None?
  {
    SortByName(t.nodes, ChildrenOf(t, None))
  }

  /** Subdirectories are listed in comparator order, equal names in id order, each exactly once. */
  lemma SortedChildrenOrder(t: Tree, x: Id)
    ensures NameThenId(t.nodes, SortedChildren(t, x))
    ensures multiset(SortedChildren(t, x)) == multiset(ChildrenOf(t, Some(x)))
  {
    SortOrder(t.nodes, ChildrenOf(t, Some(x)));
  }

  /** Root-level directories are listed in comparator order, equal names in id order, each exactly once. */
  lemma SortedRootsOrder(t: Tree)
    ensures NameThenId(t.nodes, SortedRoots(t))
    ensures multiset(SortedRoots(t)) == multiset(ChildrenOf(t, None))
  {
    SortOrder(t.nodes, ChildrenOf(t, None));
  }

  predicate ChildrenAt(t: Tree, p: Id, cs: seq<Id>) {
    forall i :: 0 <= i < |cs| ==> cs[i] in t.nodes && t.nodes[cs[i]].parent == Some(p)
  }

  predicate RootsAt(t: Tree, rs: seq<Id>) {
    forall i :: 0 <= i < |rs| ==> rs[i] in t.nodes && t.nodes[rs[i]].parent.None?
  }

  /** formatDirectory: the directory's own line, then each sorted subdirectory one level deeper. */
  ghost function NodeEntries(t: Tree, path: seq<Id>, level: nat): (es: seq<Entry>)
    requires RootPath(t, path)
    ensures EntriesIn(t, es)
    ensures es != [] && es[0] == Entry(path[|path| - 1], level)
    decreases t.nodes.Keys - Elems(path), 1, 0
  {
    var x := path[|path| - 1];
    [Entry(x, level)] + ChildrenEntries(t, path, SortedChildren(t, x), level + 1)
  }

  ghost function ChildrenEntries(t: Tree, path: seq<Id>, cs: seq<Id>, level: nat): (es: seq<Entry>)
    requires RootPath(t, path) && ChildrenAt(t, path[|path| - 1], cs)
    ensures EntriesIn(t, es)
    decreases t.nodes.Keys - Elems(path), 0, |cs|
  {
    if cs == [] then []
    else
      var c := cs[|cs| - 1];
      ExtendRootPath(t, path, c);
      ChildrenEntries(t, path, cs[..|cs| - 1], level) + NodeEntries(t, path + [c], level)
  }

  ghost function RootsEntries(t: Tree, rs: seq<Id>): (es: seq<Entry>)
    requires RootsAt(t, rs)
    ensures EntriesIn(t, es)
    decreases |rs|
  {
    if rs == [] then []
    else RootsEntries(t, rs[..|rs| - 1]) + NodeEntries(t, [rs[|rs| - 1]], 0)
  }

  /** The lines of the whole listing, in order. */
  ghost function ForestEntries(t: Tree): (es: seq<Entry>)
    ensures EntriesIn(t, es)
  {
    RootsEntries(t, SortedRoots(t))
  }

  /** formatDirectoryStructure's result. */
  ghost function RenderForest(t: Tree): string
  {
    Text(t, ForestEntries(t))
  }

  /** The text has at least one character per line, is empty exactly without lines, and ends a line. */
  lemma {:induction false} TextShape(t: Tree, es: seq<Entry>)
    requires EntriesIn(t, es)
    ensures var r := Text(t, es);
      |r| >= |es| && (r == "" <==> es == []) && (es != [] ==> r[|r| - 1] == '\n')
    decreases |es|
  {
    if es != [] {
      TextShape(t, es[..|es| - 1]);
      LineShape(t, es[|es| - 1]);
    }
  }

  /** The listing is empty exactly when no directory is at root level; otherwise it ends a line. */
  lemma RenderForestEmptyIff(t: Tree)
    ensures var r := RenderForest(t);
      (r == "" <==> SortedRoots(t) == []) && (r != "" ==> r[|r| - 1] == '\n')
  {
    var rs := SortedRoots(t);
    SortedRootsAt(t);
    TextShape(t, ForestEntries(t));
    if rs != [] {
      assert NodeEntries(t, [rs[|rs| - 1]], 0) != [];
    }
  }

  /** An empty table lists as the empty string. */
  lemma RenderEmpty(t: Tree)
    requires t.nodes == map[]
    ensures RenderForest(t) == ""
  {
    assert SortedRoots(t) == [];
  }

  /** The ids of a list of lines, in order. */
  function Ids(es: seq<Entry>): (r: seq<Id>)
    ensures |r| == |es| && forall i :: 0 <= i < |es| ==> r[i] == es[i].id
  {
    seq(|es|, i requires 0 <= i < |es| => es[i].id)
  }

  predicate Distinct(s: seq<Id>) {
    forall i, j :: 0 <= i < j < |s| ==> s[i] != s[j]
  }

  /** Ids distributes over concatenation; a lemma of its own keeps the listing proofs small. */
  lemma IdsAppend(a: seq<Entry>, b: seq<Entry>)
    ensures Ids(a + b) == Ids(a) + Ids(b)
  {
  }

  lemma DistinctAppend(a: seq<Id>, b: seq<Id>)
    requires Distinct(a) && Distinct(b)
    requires forall y :: y in a ==> y !in b
    ensures Distinct(a + b)
  {
    var r := a + b;
    forall i, j | 0 <= i < j < |r|
      ensures r[i] != r[j]
    {
      if i < |a| && j >= |a| {
        assert r[i] in a && r[j] == b[j - |a|];
      } else if i >= |a| {
        assert r[i] == b[i - |a|] && r[j] == b[j - |a|];
      }
    }
  }

  /** A sorted list of subdirectories names every subdirectory once. */
  lemma SortedChildrenDistinct(t: Tree, x: Id)
    ensures Distinct(SortedChildren(t, x))
  {
    var r := SortedChildren(t, x);
    SortOrder(t.nodes, ChildrenOf(t, Some(x)));
    forall i, j | 0 <= i < j < |r|
      ensures r[i] != r[j]
    {
      NameLeTotal(t.nodes[r[j]].name, t.nodes[r[j]].name);
    }
  }

  lemma SortedRootsDistinct(t: Tree)
    ensures Distinct(SortedRoots(t))
  {
    var r := SortedRoots(t);
    SortOrder(t.nodes, ChildrenOf(t, None));
    forall i, j | 0 <= i < j < |r|
      ensures r[i] != r[j]
    {
      NameLeTotal(t.nodes[r[j]].name, t.nodes[r[j]].name);
    }
  }

  /** Every ancestor of the last directory of a root path lies on the path. */
  lemma {:induction false} AncestorOnPath(t: Tree, path: seq<Id>, d: nat)
    requires RootPath(t, path)
    ensures var a := Ancestor(t, path[|path| - 1], d); a.Some? ==> a.value in path
    decreases |path|
  {
    var n := |path|;
    if d > 0 && n > 1 {
      var p := path[..n - 1];
      assert RootPath(t, p) by {
        forall i | 1 <= i < |p|
          ensures t.nodes[p[i]].parent == Some(p[i - 1])
        {
          assert p[i] == path[i] && p[i - 1] == path[i - 1];
        }
      }
      AncestorOnPath(t, p, d - 1);
      assert t.nodes[path[n - 1]].parent == Some(path[n - 2]);
    }
  }

  /** Two subdirectories of a listed directory have no descendant in common. */
  lemma SiblingSubtreesDisjoint(t: Tree, path: seq<Id>, c1: Id, c2: Id, y: Id, k1: nat, k2: nat)
    requires RootPath(t, path)
    requires c1 in t.nodes && t.nodes[c1].parent == Some(path[|path| - 1])
    requires c2 in t.nodes && t.nodes[c2].parent == Some(path[|path| - 1])
    requires Ancestor(t, y, k1) == Some(c1) && Ancestor(t, y, k2) == Some(c2)
    ensures c1 == c2
  {
    var x := path[|path| - 1];
    if k1 < k2 {
      AncestorAdd(t, y, k1, k2 - k1);
      assert Ancestor(t, c1, 1) == Some(x);
      AncestorAdd(t, c1, 1, k2 - k1 - 1);
      AncestorOnPath(t, path, k2 - k1 - 1);
      ExtendRootPath(t, path, c2);
      assert false;
    } else if k2 < k1 {
      AncestorAdd(t, y, k2, k1 - k2);
      assert Ancestor(t, c2, 1) == Some(x);
      AncestorAdd(t, c2, 1, k1 - k2 - 1);
      AncestorOnPath(t, path, k1 - k2 - 1);
      ExtendRootPath(t, path, c1);
      assert false;
    }
  }

  /** Two root-level directories have no descendant in common. */
  lemma RootSubtreesDisjoint(t: Tree, r1: Id, r2: Id, y: Id, k1: nat, k2: nat)
    requires r1 in t.nodes && t.nodes[r1].parent.None?
    requires r2 in t.nodes && t.nodes[r2].parent.None?
    requires Ancestor(t, y, k1) == Some(r1) && Ancestor(t, y, k2) == Some(r2)
    ensures r1 == r2
  {
    if k1 < k2 {
      AncestorAdd(t, y, k1, k2 - k1);
      assert false;
    } else if k2 < k1 {
      AncestorAdd(t, y, k2, k1 - k2);
      assert false;
    }
  }

  /** Line e is a descendant of x, and its level exceeds `level` by its distance below x. */
  ghost predicate Descends(t: Tree, e: Entry, level: nat, x: Id) {
    e.level >= level && Ancestor(t, e.id, e.level - level) == Some(x)
  }

  /** Line e is a descendant of one of cs, its level exceeding `level` by its distance below it. */
  ghost predicate DescendsFromOne(t: Tree, e: Entry, level: nat, cs: seq<Id>) {
    e.level >= level && var a := Ancestor(t, e.id, e.level - level); a.Some? && a.value in cs
  }

  ghost predicate AllDescend(t: Tree, es: seq<Entry>, level: nat, x: Id) {
    forall i :: 0 <= i < |es| ==> Descends(t, es[i], level, x)
  }

  ghost predicate AllDescendFromOne(t: Tree, es: seq<Entry>, level: nat, cs: seq<Id>) {
    forall i :: 0 <= i < |es| ==> DescendsFromOne(t, es[i], level, cs)
  }

  /** A directory's line followed by lines below its subdirectories are all below the directory. */
  lemma LiftOneLevel(t: Tree, x: Id, level: nat, cs: seq<Id>, rest: seq<Entry>)
    requires ChildrenAt(t, x, cs) && AllDescendFromOne(t, rest, level + 1, cs)
    ensures AllDescend(t, [Entry(x, level)] + rest, level, x)
  {
    var es := [Entry(x, level)] + rest;
    forall i | 0 <= i < |es|
      ensures Descends(t, es[i], level, x)
    {
      if i > 0 {
        var e := rest[i - 1];
        assert es[i] == e;
        assert DescendsFromOne(t, e, level + 1, cs);
        var c := Ancestor(t, e.id, e.level - (level + 1)).value;
        AncestorAdd(t, e.id, e.level - (level + 1), 1);
        var k :| 0 <= k < |cs| && cs[k] == c;
        assert Ancestor(t, c, 1) == Some(x);
      }
    }
  }

  lemma JoinDescents(t: Tree, a: seq<Entry>, b: seq<Entry>, level: nat, cs: seq<Id>)
    requires cs != []
    requires AllDescendFromOne(t, a, level, cs[..|cs| - 1]) && AllDescend(t, b, level, cs[|cs| - 1])
    ensures AllDescendFromOne(t, a + b, level, cs)
  {
    var init := cs[..|cs| - 1];
    var es := a + b;
    forall i | 0 <= i < |es|
      ensures DescendsFromOne(t, es[i], level, cs)
    {
      if i < |a| {
        assert es[i] == a[i];
        assert DescendsFromOne(t, a[i], level, init);
        var v := Ancestor(t, a[i].id, a[i].level - level).value;
        var k :| 0 <= k < |init| && init[k] == v;
        assert cs[k] == v;
      } else {
        assert es[i] == b[i - |a|];
        assert Descends(t, b[i - |a|], level, cs[|cs| - 1]);
      }
    }
  }

  lemma NodeEntriesUnfold(t: Tree, path: seq<Id>, level: nat)
    requires RootPath(t, path)
    ensures NodeEntries(t, path, level)
      == [Entry(path[|path| - 1], level)] + ChildrenEntries(t, path, SortedChildren(t, path[|path| - 1]), level + 1)
  {
  }

  lemma ChildrenEntriesUnfold(t: Tree, path: seq<Id>, cs: seq<Id>, level: nat)
    requires RootPath(t, path) && ChildrenAt(t, path[|path| - 1], cs) && cs != []
    ensures RootPath(t, path + [cs[|cs| - 1]]) && ChildrenAt(t, path[|path| - 1], cs[..|cs| - 1])
    ensures ChildrenEntries(t, path, cs, level)
      == ChildrenEntries(t, path, cs[..|cs| - 1], level) + NodeEntries(t, path + [cs[|cs| - 1]], level)
  {
    ExtendRootPath(t, path, cs[|cs| - 1]);
  }

  /** Each line of a directory's listing is a descendant of it, indented by its distance below it. */
  lemma {:induction false} NodeEntriesSound(t: Tree, path: seq<Id>, level: nat)
    requires RootPath(t, path)
    ensures AllDescend(t, NodeEntries(t, path, level), level, path[|path| - 1])
    decreases t.nodes.Keys - Elems(path), 1, 0
  {
    var x := path[|path| - 1];
    var cs := SortedChildren(t, x);
    ChildrenEntriesSound(t, path, cs, level + 1);
    LiftOneLevel(t, x, level, cs, ChildrenEntries(t, path, cs, level + 1));
    NodeEntriesUnfold(t, path, level);
  }

  lemma {:induction false} ChildrenEntriesSound(t: Tree, path: seq<Id>, cs: seq<Id>, level: nat)
    requires RootPath(t, path) && ChildrenAt(t, path[|path| - 1], cs)
    ensures AllDescendFromOne(t, ChildrenEntries(t, path, cs, level), level, cs)
    decreases t.nodes.Keys - Elems(path), 0, |cs|
  {
    if cs != [] {
      var c := cs[|cs| - 1];
      ChildrenEntriesUnfold(t, path, cs, level);
      ExtendRootPath(t, path, c);
      ChildrenEntriesSound(t, path, cs[..|cs| - 1], level);
      NodeEntriesSound(t, path + [c], level);
      JoinDescents(t, ChildrenEntries(t, path, cs[..|cs| - 1], level), NodeEntries(t, path + [c], level), level, cs);
    }
  }

  /** The listed directory is not among the lines below its subdirectories. */
  lemma SelfNotBelow(t: Tree, path: seq<Id>, level: nat, cs: seq<Id>, rest: seq<Entry>)
    requires RootPath(t, path) && ChildrenAt(t, path[|path| - 1], cs)
    requires AllDescendFromOne(t, rest, level + 1, cs)
    ensures path[|path| - 1] !in Ids(rest)
  {
    var x := path[|path| - 1];
    if x in Ids(rest) {
      var i :| 0 <= i < |rest| && Ids(rest)[i] == x;
      assert DescendsFromOne(t, rest[i], level + 1, cs);
      var d := rest[i].level - (level + 1);
      var c := Ancestor(t, x, d).value;
      var k :| 0 <= k < |cs| && cs[k] == c;
      AncestorOnPath(t, path, d);
      ExtendRootPath(t, path, c);
      assert false;
    }
  }

  /** A directory's listing names no directory twice. */
  lemma {:induction false} NodeEntriesDistinct(t: Tree, path: seq<Id>, level: nat)
    requires RootPath(t, path)
    ensures Distinct(Ids(NodeEntries(t, path, level)))
    decreases t.nodes.Keys - Elems(path), 1, 0
  {
    var x := path[|path| - 1];
    var cs := SortedChildren(t, x);
    SortedChildrenDistinct(t, x);
    var rest := ChildrenEntries(t, path, cs, level + 1);
    ChildrenEntriesDistinct(t, path, cs, level + 1);
    ChildrenEntriesSound(t, path, cs, level + 1);
    SelfNotBelow(t, path, level, cs, rest);
    IdsAppend([Entry(x, level)], rest);
    assert Ids([Entry(x, level)]) == [x];
    DistinctAppend([x], Ids(rest));
    NodeEntriesUnfold(t, path, level);
  }

  /** Lines below earlier subdirectories and lines below the last one name different directories. */
  lemma SiblingLinesDisjoint(t: Tree, path: seq<Id>, cs: seq<Id>, level: nat, a: seq<Entry>, b: seq<Entry>)
    requires RootPath(t, path) && ChildrenAt(t, path[|path| - 1], cs) && Distinct(cs) && cs != []
    requires AllDescendFromOne(t, a, level, cs[..|cs| - 1]) && AllDescend(t, b, level, cs[|cs| - 1])
    ensures forall y :: y in Ids(a) ==> y !in Ids(b)
  {
    var c := cs[|cs| - 1];
    var init := cs[..|cs| - 1];
    forall y | y in Ids(a)
      ensures y !in Ids(b)
    {
      var i :| 0 <= i < |a| && Ids(a)[i] == y;
      assert DescendsFromOne(t, a[i], level, init);
      var c1 := Ancestor(t, y, a[i].level - level).value;
      var j1 :| 0 <= j1 < |init| && init[j1] == c1;
      assert cs[j1] == c1;
      if y in Ids(b) {
        var j :| 0 <= j < |b| && Ids(b)[j] == y;
        assert Descends(t, b[j], level, c);
        SiblingSubtreesDisjoint(t, path, c1, c, y, a[i].level - level, b[j].level - level);
        assert false;
      }
    }
  }

  lemma {:induction false} ChildrenEntriesDistinct(t: Tree, path: seq<Id>, cs: seq<Id>, level: nat)
    requires RootPath(t, path) && ChildrenAt(t, path[|path| - 1], cs) && Distinct(cs)
    ensures Distinct(Ids(ChildrenEntries(t, path, cs, level)))
    decreases t.nodes.Keys - Elems(path), 0, |cs|
  {
    if cs != [] {
      var c := cs[|cs| - 1];
      var init := cs[..|cs| - 1];
      ChildrenEntriesUnfold(t, path, cs, level);
      ExtendRootPath(t, path, c);
      assert Distinct(init);
      ChildrenEntriesDistinct(t, path, init, level);
      ChildrenEntriesSound(t, path, init, level);
      NodeEntriesDistinct(t, path + [c], level);
      NodeEntriesSound(t, path + [c], level);
      var a := ChildrenEntries(t, path, init, level);
      var b := NodeEntries(t, path + [c], level);
      SiblingLinesDisjoint(t, path, cs, level, a, b);
      IdsAppend(a, b);
      DistinctAppend(Ids(a), Ids(b));
    }
  }

  /** Every stored descendant of x is listed in es. */
  ghost predicate Covers(t: Tree, es: seq<Entry>, x: Id) {
    forall y, k: nat :: y in t.nodes && Ancestor(t, y, k) == Some(x) ==> y in Ids(es)
  }

  ghost predicate CoversAll(t: Tree, es: seq<Entry>, cs: seq<Id>) {
    forall j :: 0 <= j < |cs| ==> Covers(t, es, cs[j])
  }

  lemma {:induction false} AncestorShorter(t: Tree, y: Id, k: nat)
    requires k > 0 && Ancestor(t, y, k).Some?
    ensures Ancestor(t, y, k - 1).Some?
    decreases k
  {
    if k > 1 {
      AncestorShorter(t, t.nodes[y].parent.value, k - 1);
    }
  }

  /** Lines listing all descendants of every subdirectory of x, after x's own line, list all of x's descendants. */
  lemma LowerCovers(t: Tree, x: Id, level: nat, cs: seq<Id>, rest: seq<Entry>)
    requires WellFormed(t)
    requires forall y :: y in t.nodes && y < t.next && t.nodes[y].parent == Some(x) ==> y in cs
    requires CoversAll(t, rest, cs)
    ensures Covers(t, [Entry(x, level)] + rest, x)
  {
    var es := [Entry(x, level)] + rest;
    IdsAppend([Entry(x, level)], rest);
    assert Ids([Entry(x, level)]) == [x];
    forall y, k: nat | y in t.nodes && Ancestor(t, y, k) == Some(x)
      ensures y in Ids(es)
    {
      if k > 0 {
        AncestorShorter(t, y, k);
        var c := Ancestor(t, y, k - 1).value;
        AncestorAdd(t, y, k - 1, 1);
        assert c in t.nodes && t.nodes[c].parent == Some(x);
        var j :| 0 <= j < |cs| && cs[j] == c;
        assert Covers(t, rest, cs[j]);
      }
    }
  }

  lemma JoinCovers(t: Tree, a: seq<Entry>, b: seq<Entry>, cs: seq<Id>)
    requires cs != []
    requires CoversAll(t, a, cs[..|cs| - 1]) && Covers(t, b, cs[|cs| - 1])
    ensures CoversAll(t, a + b, cs)
  {
    IdsAppend(a, b);
    forall j | 0 <= j < |cs|
      ensures Covers(t, a + b, cs[j])
    {
      if j < |cs| - 1 {
        assert Covers(t, a, cs[..|cs| - 1][j]);
      }
    }
  }

  /** A directory's listing lists every stored descendant of it. */
  lemma {:induction false} NodeEntriesComplete(t: Tree, path: seq<Id>, level: nat)
    requires RootPath(t, path) && WellFormed(t)
    ensures Covers(t, NodeEntries(t, path, level), path[|path| - 1])
    decreases t.nodes.Keys - Elems(path), 1, 0
  {
    var x := path[|path| - 1];
    var cs := SortedChildren(t, x);
    ChildrenEntriesComplete(t, path, cs, level + 1);
    LowerCovers(t, x, level, cs, ChildrenEntries(t, path, cs, level + 1));
    NodeEntriesUnfold(t, path, level);
  }

  lemma {:induction false} ChildrenEntriesComplete(t: Tree, path: seq<Id>, cs: seq<Id>, level: nat)
    requires RootPath(t, path) && ChildrenAt(t, path[|path| - 1], cs) && WellFormed(t)
    ensures CoversAll(t, ChildrenEntries(t, path, cs, level), cs)
    decreases t.nodes.Keys - Elems(path), 0, |cs|
  {
    if cs != [] {
      var c := cs[|cs| - 1];
      ChildrenEntriesUnfold(t, path, cs, level);
      ExtendRootPath(t, path, c);
      ChildrenEntriesComplete(t, path, cs[..|cs| - 1], level);
      NodeEntriesComplete(t, path + [c], level);
      JoinCovers(t, ChildrenEntries(t, path, cs[..|cs| - 1], level), NodeEntries(t, path + [c], level), cs);
    }
  }

  lemma RootsEntriesUnfold(t: Tree, rs: seq<Id>)
    requires RootsAt(t, rs) && rs != []
    ensures RootPath(t, [rs[|rs| - 1]]) && RootsAt(t, rs[..|rs| - 1])
    ensures RootsEntries(t, rs) == RootsEntries(t, rs[..|rs| - 1]) + NodeEntries(t, [rs[|rs| - 1]], 0)
  {
  }

  /** The listing of the root-level directories rs: each line lies below one of them, at its depth. */
  lemma {:induction false} RootsEntriesSound(t: Tree, rs: seq<Id>)
    requires RootsAt(t, rs)
    ensures AllDescendFromOne(t, RootsEntries(t, rs), 0, rs)
    decreases |rs|
  {
    if rs != [] {
      var r := rs[|rs| - 1];
      RootsEntriesUnfold(t, rs);
      RootsEntriesSound(t, rs[..|rs| - 1]);
      NodeEntriesSound(t, [r], 0);
      JoinDescents(t, RootsEntries(t, rs[..|rs| - 1]), NodeEntries(t, [r], 0), 0, rs);
    }
  }

  lemma RootLinesDisjoint(t: Tree, rs: seq<Id>, a: seq<Entry>, b: seq<Entry>)
    requires RootsAt(t, rs) && Distinct(rs) && rs != []
    requires AllDescendFromOne(t, a, 0, rs[..|rs| - 1]) && AllDescend(t, b, 0, rs[|rs| - 1])
    ensures forall y :: y in Ids(a) ==> y !in Ids(b)
  {
    var r := rs[|rs| - 1];
    var init := rs[..|rs| - 1];
    forall y | y in Ids(a)
      ensures y !in Ids(b)
    {
      var i :| 0 <= i < |a| && Ids(a)[i] == y;
      assert DescendsFromOne(t, a[i], 0, init);
      var r1 := Ancestor(t, y, a[i].level).value;
      var j1 :| 0 <= j1 < |init| && init[j1] == r1;
      assert rs[j1] == r1;
      if y in Ids(b) {
        var j :| 0 <= j < |b| && Ids(b)[j] == y;
        assert Descends(t, b[j], 0, r);
        RootSubtreesDisjoint(t, r1, r, y, a[i].level, b[j].level);
        assert false;
      }
    }
  }

  lemma {:induction false} RootsEntriesDistinct(t: Tree, rs: seq<Id>)
    requires RootsAt(t, rs) && Distinct(rs)
    ensures Distinct(Ids(RootsEntries(t, rs)))
    decreases |rs|
  {
    if rs != [] {
      var r := rs[|rs| - 1];
      var init := rs[..|rs| - 1];
      RootsEntriesUnfold(t, rs);
      assert Distinct(init);
      RootsEntriesDistinct(t, init);
      RootsEntriesSound(t, init);
      NodeEntriesDistinct(t, [r], 0);
      NodeEntriesSound(t, [r], 0);
      var a := RootsEntries(t, init);
      var b := NodeEntries(t, [r], 0);
      RootLinesDisjoint(t, rs, a, b);
      IdsAppend(a, b);
      DistinctAppend(Ids(a), Ids(b));
    }
  }

  lemma {:induction false} RootsEntriesComplete(t: Tree, rs: seq<Id>)
    requires RootsAt(t, rs) && WellFormed(t)
    ensures CoversAll(t, RootsEntries(t, rs), rs)
    decreases |rs|
  {
    if rs != [] {
      var r := rs[|rs| - 1];
      RootsEntriesUnfold(t, rs);
      RootsEntriesComplete(t, rs[..|rs| - 1]);
      NodeEntriesComplete(t, [r], 0);
      JoinCovers(t, RootsEntries(t, rs[..|rs| - 1]), NodeEntries(t, [r], 0), rs);
    }
  }

  /** e's level is the number of parent steps from its directory up to a root-level directory. */
  ghost predicate AtDepth(t: Tree, e: Entry) {
    var a := Ancestor(t, e.id, e.level);
    a.Some? && a.value in t.nodes && t.nodes[a.value].parent.None?
  }

  /**
    The listing has exactly one line per directory reachable from a root-level directory
    (the directories on parent cycles are never reached), indented by its depth.
  */
  lemma ListingLines(t: Tree)
    requires WellFormed(t)
    ensures Distinct(Ids(ForestEntries(t)))
    ensures forall y :: y in Ids(ForestEntries(t)) <==> y in t.nodes && Rooted(t, y)
    ensures forall i :: 0 <= i < |ForestEntries(t)| ==> AtDepth(t, ForestEntries(t)[i])
  {
    var rs := SortedRoots(t);
    var es := ForestEntries(t);
    SortedRootsDistinct(t);
    RootsEntriesSound(t, rs);
    RootsEntriesDistinct(t, rs);
    RootsEntriesComplete(t, rs);
    forall i | 0 <= i < |es|
      ensures AtDepth(t, es[i]) && Rooted(t, es[i].id)
    {
      assert DescendsFromOne(t, es[i], 0, rs);
      var r := Ancestor(t, es[i].id, es[i].level).value;
      var j :| 0 <= j < |rs| && rs[j] == r;
    }
    forall y | y in t.nodes && Rooted(t, y)
      ensures y in Ids(es)
    {
      var k: nat :| var a := Ancestor(t, y, k); a.Some? && a.value in t.nodes && t.nodes[a.value].parent.None?;
      var r := Ancestor(t, y, k).value;
      var j :| 0 <= j < |rs| && rs[j] == r;
      assert Covers(t, es, rs[j]);
    }
  }

  lemma ElemsSnoc(s: seq<Id>)
    requires s != []
    ensures Elems(s) == Elems(s[..|s| - 1]) + {s[|s| - 1]}
  {
    var init := s[..|s| - 1];
    forall y | y in Elems(s)
      ensures y in Elems(init) + {s[|s| - 1]}
    {
      var i :| 0 <= i < |s| && s[i] == y;
      if i < |s| - 1 {
        assert init[i] == y;
      }
    }
    forall y | y in Elems(init)
      ensures y in Elems(s)
    {
      var i :| 0 <= i < |init| && init[i] == y;
      assert s[i] == y;
    }
    assert s[|s| - 1] in Elems(s);
  }

  lemma {:induction false} DistinctCard(s: seq<Id>)
    requires Distinct(s)
    ensures |Elems(s)| == |s|
    decreases |s|
  {
    if s != [] {
      var init := s[..|s| - 1];
      assert Distinct(init);
      DistinctCard(init);
      ElemsSnoc(s);
      assert s[|s| - 1] !in Elems(init);
    }
  }

  /** In a forest (every directory reachable from a root-level one) the listing has one line per stored directory. */
  lemma ListingLength(t: Tree)
    requires WellFormed(t) && Acyclic(t)
    ensures |ForestEntries(t)| == |t.nodes|
  {
    var ids := Ids(ForestEntries(t));
    ListingLines(t);
    DistinctCard(ids);
    assert Elems(ids) == t.nodes.Keys;
  }

  lemma TextOne(t: Tree, e: Entry)
    requires e.id in t.nodes
    ensures Text(t, [e]) == Indent(e.level) + t.nodes[e.id].name + "\n"
  {
    assert [e][..0] == [];
  }

  /** Formatting one more root-level directory appends its listing. */
  lemma RootsStep(t: Tree, rs: seq<Id>, i: nat)
    requires RootsAt(t, rs) && i < |rs|
    ensures RootsAt(t, rs[..i]) && RootsAt(t, rs[..i + 1]) && RootPath(t, [rs[i]])
    ensures Text(t, RootsEntries(t, rs[..i + 1])) == Text(t, RootsEntries(t, rs[..i])) + Text(t, NodeEntries(t, [rs[i]], 0))
  {
    var p := rs[..i + 1];
    assert p[..i] == rs[..i] && p[i] == rs[i];
    RootsEntriesUnfold(t, p);
    TextAppend(t, RootsEntries(t, rs[..i]), NodeEntries(t, [rs[i]], 0));
  }

  /** Formatting one more subdirectory appends its listing. */
  lemma ChildrenStep(t: Tree, path: seq<Id>, cs: seq<Id>, j: nat, level: nat)
    requires RootPath(t, path) && ChildrenAt(t, path[|path| - 1], cs) && j < |cs|
    ensures ChildrenAt(t, path[|path| - 1], cs[..j]) && ChildrenAt(t, path[|path| - 1], cs[..j + 1])
    ensures RootPath(t, path + [cs[j]]) && t.nodes.Keys - Elems(path + [cs[j]]) < t.nodes.Keys - Elems(path)
    ensures Text(t, ChildrenEntries(t, path, cs[..j + 1], level))
      == Text(t, ChildrenEntries(t, path, cs[..j], level)) + Text(t, NodeEntries(t, path + [cs[j]], level))
  {
    var p := cs[..j + 1];
    assert p[..j] == cs[..j] && p[j] == cs[j];
    ExtendRootPath(t, path, cs[j]);
    ChildrenEntriesUnfold(t, path, p, level);
    TextAppend(t, ChildrenEntries(t, path, cs[..j], level), NodeEntries(t, path + [cs[j]], level));
  }

  /** A directory's listing is its own line followed by the listings of its sorted subdirectories. */
  lemma NodeText(t: Tree, path: seq<Id>, level: nat, subs: seq<Id>)
    requires RootPath(t, path) && subs == SortedChildren(t, path[|path| - 1])
    ensures ChildrenAt(t, path[|path| - 1], subs)
    ensures Text(t, NodeEntries(t, path, level))
      == Indent(level) + t.nodes[path[|path| - 1]].name + "\n" + Text(t, ChildrenEntries(t, path, subs, level + 1))
  {
    var x := path[|path| - 1];
    NodeEntriesUnfold(t, path, level);
    TextAppend(t, [Entry(x, level)], ChildrenEntries(t, path, subs, level + 1));
    TextOne(t, Entry(x, level));
  }

  lemma SortedChildrenAt(t: Tree, x: Id)
    ensures ChildrenAt(t, x, SortedChildren(t, x))
  {
    var r := SortedChildren(t, x);
    forall i | 0 <= i < |r|
      ensures r[i] in t.nodes && t.nodes[r[i]].parent == Some(x)
    {
      assert r[i] in r;
    }
  }

  /** The text formatDirectory has appended once its own line and all its subdirectories are written. */
  lemma FormatComplete(t: Tree, path: seq<Id>, level: nat, subs: seq<Id>, before: string, head: string, after: string)
    requires RootPath(t, path) && subs == SortedChildren(t, path[|path| - 1])
    requires head == before + (Indent(level) + t.nodes[path[|path| - 1]].name + "\n")
    requires ChildrenAt(t, path[|path| - 1], subs) && after == head + Text(t, ChildrenEntries(t, path, subs, level + 1))
    ensures after == before + Text(t, NodeEntries(t, path, level))
  {
    NodeText(t, path, level, subs);
    AppendAssoc(before, Indent(level) + t.nodes[path[|path| - 1]].name + "\n", Text(t, ChildrenEntries(t, path, subs, level + 1)));
  }

  /** Regrouping a concatenation; a lemma of its own keeps the formatting proofs small. */
  lemma AppendAssoc(a: string, b: string, c: string)
    ensures (a + b) + c == a + (b + c)
  {
  }

  lemma SortedRootsAt(t: Tree)
    ensures RootsAt(t, SortedRoots(t))
  {
    var r := SortedRoots(t);
    forall i | 0 <= i < |r|
      ensures r[i] in t.nodes && t.nodes[r[i]].parent.None?
    {
      assert r[i] in r;
    }
  }
}
