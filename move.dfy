/** moveDirectory: re-parenting, with no check against cycles or sibling name clashes. */
module Move {
  import opened Wrappers
  import opened JavaStrings
  import opened Store
  import opened Resolve

  /** The table with directory x moved under `dst` (None: to root level). */
  function Reparent(t: Tree, x: Id, dst: Option<Id>): (t': Tree)
    requires x in t.nodes
    ensures t'.nodes.Keys == t.nodes.Keys && t'.next == t.next
  {
    Tree(t.nodes[x := Node(t.nodes[x].name, dst)], t.next)
  }

  /**
    moveDirectory: both paths are resolved first (a "/"-only path dereferences null); an empty
    target means root level, and so does a target that does not resolve. A source that does not
    resolve gives no result and changes nothing.
  */
  function MovePath(t: Tree, source: string, target: string): (r: (Tree, Result<Option<Id>>))
    ensures r.1.Err? <==> Split(source) == [] || (target != "" && Split(target) == [])
    ensures r.1.Err? || r.1 == Ok(None) ==> r.0 == t
    ensures r.0.nodes.Keys == t.nodes.Keys && r.0.next == t.next
    ensures r.1.Ok? && r.1.value.Some? ==> r.1.value.value in t.nodes
  {
    match ResolvePath(t, source)
    case Err(f) => (t, Err(f))
    case Ok(src) =>
      match if target == "" then Ok(None) else ResolvePath(t, target)
      case Err(f) => (t, Err(f))
      case Ok(dst) =>
        if src.None? then (t, Ok(None))
        else (Reparent(t, src.value, dst), Ok(Some(src.value)))
  }

  /** The parent a successful move gives the source: the target directory, or root level. */
  function TargetParent(t: Tree, target: string): (r: Option<Id>)
    ensures target == "" ==> r.None?
    ensures r.Some? ==> r.value in t.nodes
  {
    if target == "" then None
    else match ResolvePath(t, target)
      case Ok(dst) => dst
      case Err(_) => None
  }

  /** A source that does not resolve: no result, table unchanged. */
  lemma MoveMissingSource(t: Tree, source: string, target: string)
    requires ResolvePath(t, source) == Ok(None)
    requires target == "" || ResolvePath(t, target).Ok?
    ensures MovePath(t, source, target) == (t, Ok(None))
  {
  }

  /**
    A move that succeeds changes the source's parent and nothing else: not its name, not the
    set of ids, not any other directory (so its subdirectories still hang below it).
  */
  lemma MoveOnlyReparents(t: Tree, source: string, target: string)
    requires ResolvePath(t, source).Ok? && ResolvePath(t, source).value.Some?
    requires target == "" || ResolvePath(t, target).Ok?
    ensures var x := ResolvePath(t, source).value.value;
      var (t', r) := MovePath(t, source, target);
      && r == Ok(Some(x))
      && t'.next == t.next && t'.nodes.Keys == t.nodes.Keys
      && t'.nodes[x] == Node(t.nodes[x].name, TargetParent(t, target))
      && (forall k :: k in t.nodes && k != x ==> t'.nodes[k] == t.nodes[k])
  {
  }

  /** A non-empty target that does not resolve does not fail the move: the source goes to root level. */
  lemma MoveUnresolvedTargetGoesToRoot(t: Tree, source: string, target: string)
    requires ResolvePath(t, source).Ok? && ResolvePath(t, source).value.Some?
    requires target != "" && ResolvePath(t, target) == Ok(None)
    ensures var x := ResolvePath(t, source).value.value;
      MovePath(t, source, target).1 == Ok(Some(x)) && MovePath(t, source, target).0.nodes[x].parent == None
  {
  }

  /** Whatever the move does, parent references still name stored directories. */
  lemma MoveKeepsWellFormed(t: Tree, source: string, target: string)
    requires WellFormed(t)
    ensures WellFormed(MovePath(t, source, target).0)
  {
  }

  lemma {:induction false} AncestorAvoiding(t: Tree, x: Id, dst: Option<Id>, y: Id, k: nat)
    requires x in t.nodes
    requires forall j :: 0 <= j < k ==> Ancestor(t, y, j) != Some(x)
    ensures Ancestor(Reparent(t, x, dst), y, k) == Ancestor(t, y, k)
    decreases k
  {
    if k > 0 {
      assert Ancestor(t, y, 0) == Some(y);
      if y in t.nodes && t.nodes[y].parent.Some? {
        var p := t.nodes[y].parent.value;
        forall j | 0 <= j < k - 1
          ensures Ancestor(t, p, j) != Some(x)
        {
          assert Ancestor(t, y, j + 1) == Ancestor(t, p, j);
        }
        AncestorAvoiding(t, x, dst, p, k - 1);
      }
    }
  }

  /** The first time y's parent chain reaches x. */
  lemma {:induction false} FirstVisit(t: Tree, x: Id, y: Id, k: nat) returns (m: nat)
    requires Ancestor(t, y, k) == Some(x)
    ensures m <= k && Ancestor(t, y, m) == Some(x)
    ensures forall j :: 0 <= j < m ==> Ancestor(t, y, j) != Some(x)
    decreases k
  {
    if j :| 0 <= j < k && Ancestor(t, y, j) == Some(x) {
      m := FirstVisit(t, x, y, j);
    } else {
      m := k;
    }
  }

  /** The moved directory's subtree moves with it: each of its descendants is still below it. */
  lemma MoveKeepsSubtree(t: Tree, x: Id, dst: Option<Id>, y: Id)
    requires x in t.nodes && InSubtree(t, x, y)
    ensures InSubtree(Reparent(t, x, dst), x, y)
  {
    var k: nat :| Ancestor(t, y, k) == Some(x);
    var m := FirstVisit(t, x, y, k);
    AncestorAvoiding(t, x, dst, y, m);
  }

  /**
    From a table with unique sibling names, moving x under dst keeps the names unique exactly
    when no other directory under dst already carries x's name.
  */
  lemma MoveSiblingsUniqueIff(t: Tree, x: Id, dst: Option<Id>)
    requires x in t.nodes && SiblingsUnique(t)
    ensures SiblingsUnique(Reparent(t, x, dst)) <==>
      forall k :: k in t.nodes && k != x ==> t.nodes[k] != Node(t.nodes[x].name, dst)
  {
    var t' := Reparent(t, x, dst);
    if !forall k :: k in t.nodes && k != x ==> t.nodes[k] != Node(t.nodes[x].name, dst) {
      var k :| k in t.nodes && k != x && t.nodes[k] == Node(t.nodes[x].name, dst);
      assert t'.nodes[k].parent == t'.nodes[x].parent && t'.nodes[k].name == t'.nodes[x].name;
    }
  }

  lemma RootedAvoiding(t: Tree, x: Id, dst: Option<Id>, y: Id)
    requires x in t.nodes && Rooted(t, y)
    requires forall j :: Ancestor(t, y, j) != Some(x)
    ensures Rooted(Reparent(t, x, dst), y)
  {
    var k: nat :| var a := Ancestor(t, y, k); a.Some? && a.value in t.nodes && t.nodes[a.value].parent.None?;
    AncestorAvoiding(t, x, dst, y, k);
  }

  /** Moving x to root level or under a directory outside x's subtree keeps the table a forest. */
  lemma MoveOutsideKeepsAcyclic(t: Tree, x: Id, dst: Option<Id>)
    requires WellFormed(t) && Acyclic(t) && x in t.nodes
    requires dst.None? || (dst.value in t.nodes && !InSubtree(t, x, dst.value))
    ensures Acyclic(Reparent(t, x, dst))
  {
    var t' := Reparent(t, x, dst);
    assert dst.Some? ==> Rooted(t, dst.value);
    forall y | y in t'.nodes
      ensures Rooted(t', y)
    {
      if k :| Ancestor(t, y, k) == Some(x) {
        RootedThrough(t, x, dst, y, k);
      } else {
        RootedAvoiding(t, x, dst, y);
      }
    }
  }

  /** A directory below x reaches root level through x's new parent chain. */
  lemma RootedThrough(t: Tree, x: Id, dst: Option<Id>, y: Id, k: nat)
    requires x in t.nodes
    requires dst.None? || (dst.value in t.nodes && Rooted(t, dst.value) && !InSubtree(t, x, dst.value))
    requires Ancestor(t, y, k) == Some(x)
    ensures Rooted(Reparent(t, x, dst), y)
  {
    var t' := Reparent(t, x, dst);
    var m := FirstVisit(t, x, y, k);
    AncestorAvoiding(t, x, dst, y, m);
    if dst.None? {
      assert Ancestor(t', y, m) == Some(x) && t'.nodes[x].parent.None?;
    } else {
      var g := dst.value;
      var k2 := TargetRooted(t, x, dst);
      AncestorAdd(t', y, m, 1);
      assert Ancestor(t', x, 1) == Some(g);
      AncestorAdd(t', y, m + 1, k2);
      var a := Ancestor(t', y, m + 1 + k2);
      assert a.Some? && a.value in t'.nodes && t'.nodes[a.value].parent.None?;
    }
  }

  /** The new parent, lying outside x's subtree, keeps its own chain to root level. */
  lemma TargetRooted(t: Tree, x: Id, dst: Option<Id>) returns (k2: nat)
    requires x in t.nodes
    requires dst.Some? && dst.value in t.nodes && Rooted(t, dst.value) && !InSubtree(t, x, dst.value)
    ensures var a := Ancestor(Reparent(t, x, dst), dst.value, k2);
      a.Some? && a.value in t.nodes && Reparent(t, x, dst).nodes[a.value].parent.None?
  {
    var g := dst.value;
    assert forall j :: Ancestor(t, g, j) != Some(x);
    k2 :| var a := Ancestor(t, g, k2); a.Some? && a.value in t.nodes && t.nodes[a.value].parent.None?;
    AncestorAvoiding(t, x, dst, g, k2);
  }



  /** The directories of the circle x, g, ..., back to x that moving x under its own descendant g closes. */
  ghost predicate OnCircle(t: Tree, x: Id, g: Id, m: nat, z: Id) {
    z == x || exists j :: 0 <= j < m && Ancestor(t, g, j) == Some(z)
  }

  lemma {:induction false} CircleClosed(t: Tree, x: Id, g: Id, m: nat, k: nat)
    requires x in t.nodes
    requires Ancestor(t, g, m) == Some(x)
    requires forall j :: 0 <= j < m ==> Ancestor(t, g, j) != Some(x)
    ensures var a := Ancestor(Reparent(t, x, Some(g)), x, k);
      a.Some? && OnCircle(t, x, g, m, a.value) && a.value in t.nodes && Reparent(t, x, Some(g)).nodes[a.value].parent.Some?
    decreases k
  {
    var t' := Reparent(t, x, Some(g));
    if k > 0 {
      CircleClosed(t, x, g, m, k - 1);
      var z := Ancestor(t', x, k - 1).value;
      AncestorAdd(t', x, k - 1, 1);
      if z == x {
        if m == 0 {
          assert Ancestor(t, g, 0) == Some(x);
        } else {
          assert Ancestor(t, g, 0) == Some(g);
        }
        CircleMember(t, x, g, m, g);
      } else {
        var j :| 0 <= j < m && Ancestor(t, g, j) == Some(z);
        AncestorAdd(t, g, j, 1);
        var z' := t.nodes[z].parent.value;
        if j + 1 < m {
          assert Ancestor(t, g, j + 1) == Some(z');
        }
        CircleMember(t, x, g, m, z');
      }
    } else {
      CircleMember(t, x, g, m, x);
    }
  }

  lemma CircleMember(t: Tree, x: Id, g: Id, m: nat, z: Id)
    requires x in t.nodes
    requires Ancestor(t, g, m) == Some(x)
    requires OnCircle(t, x, g, m, z)
    ensures z in t.nodes && Reparent(t, x, Some(g)).nodes[z].parent.Some?
  {
    if z != x {
      var j :| 0 <= j < m && Ancestor(t, g, j) == Some(z);
      AncestorAdd(t, g, j, 1);
      assert Ancestor(t, g, j + 1).Some? by {
        AncestorSomeBelow(t, g, j + 1, m);
      }
    }
  }

  lemma {:induction false} AncestorSomeBelow(t: Tree, y: Id, j: nat, m: nat)
    requires j <= m && Ancestor(t, y, m).Some?
    ensures Ancestor(t, y, j).Some?
    decreases j
  {
    if j > 0 {
      AncestorSomeBelow(t, t.nodes[y].parent.value, j - 1, m - 1);
    }
  }

  /** Moving x under a directory of its own subtree (itself included) cuts x off from every root. */
  lemma MoveInsideMakesCycle(t: Tree, x: Id, g: Id)
    requires x in t.nodes && InSubtree(t, x, g)
    ensures !Rooted(Reparent(t, x, Some(g)), x)
  {
    var k: nat :| Ancestor(t, g, k) == Some(x);
    var m := FirstVisit(t, x, g, k);
    forall n: nat
      ensures var a := Ancestor(Reparent(t, x, Some(g)), x, n);
        !(a.Some? && a.value in t.nodes && Reparent(t, x, Some(g)).nodes[a.value].parent.None?)
    {
      CircleClosed(t, x, g, m, n);
    }
  }

  /**
    moveDirectory keeps a forest a forest exactly when the target is root level or lies
    outside the source's subtree.
  */
  lemma MoveAcyclicIff(t: Tree, x: Id, dst: Option<Id>)
    requires WellFormed(t) && Acyclic(t) && x in t.nodes
    requires dst.Some? ==> dst.value in t.nodes
    ensures Acyclic(Reparent(t, x, dst)) <==> (dst.None? || !InSubtree(t, x, dst.value))
  {
    if dst.None? || !InSubtree(t, x, dst.value) {
      MoveOutsideKeepsAcyclic(t, x, dst);
    } else {
      MoveInsideMakesCycle(t, x, dst.value);
    }
  }

  /**
    Moving a/b/c to root level ("" as target) in a table with unique sibling names and no other
    root-level directory named c: afterwards c resolves at the top level and, when the source
    had more than one segment, the old path resolves to nothing.
  */
  lemma MoveToRoot(t: Tree, source: string)
    requires WellFormed(t) && SiblingsUnique(t)
    requires ResolvePath(t, source).Ok? && ResolvePath(t, source).value.Some?
    requires var x := ResolvePath(t, source).value.value;
      && '/' !in t.nodes[x].name
      && forall k :: k in t.nodes && k != x ==> t.nodes[k] != Node(t.nodes[x].name, None)
    ensures var x := ResolvePath(t, source).value.value;
      var (t', r) := MovePath(t, source, "");
      && r == Ok(Some(x))
      && ResolvePath(t', t.nodes[x].name) == Ok(Some(x))
      && (|Split(source)| >= 2 ==> ResolvePath(t', source) == Ok(None))
  {
    var x := ResolvePath(t, source).value.value;
    assert MovePath(t, source, "") == (Reparent(t, x, None), Ok(Some(x)));
    RootNameFinds(t, x);
    MoveSiblingsUniqueIff(t, x, None);
    if |Split(source)| >= 2 {
      OldPathMisses(t, x, Split(source));
    }
  }

  /** A directory moved to root level, with no other root-level directory of its name, is found by its name. */
  lemma RootNameFinds(t: Tree, x: Id)
    requires WellFormed(t) && SiblingsUnique(t) && x in t.nodes && '/' !in t.nodes[x].name
    requires forall k :: k in t.nodes && k != x ==> t.nodes[k] != Node(t.nodes[x].name, None)
    ensures ResolvePath(Reparent(t, x, None), t.nodes[x].name) == Ok(Some(x))
  {
    var t' := Reparent(t, x, None);
    MoveSiblingsUniqueIff(t, x, None);
    LookupFindsUnique(t', None, t.nodes[x].name, x);
  }

  /** After the move, the path of two or more segments that led to x leads nowhere. */
  lemma OldPathMisses(t: Tree, x: Id, parts: seq<string>)
    requires WellFormed(t) && SiblingsUnique(t) && |parts| >= 2
    requires x in t.nodes && SiblingsUnique(Reparent(t, x, None))
    requires ResolveFrom(t, None, parts) == Some(x)
    ensures ResolveFrom(Reparent(t, x, None), None, parts) == None
  {
    PrefixStillResolves(t, x, parts);
    MovedAwayMisses(t, x, t.nodes[x].parent.value, parts[|parts| - 1]);
    ResolveLast(Reparent(t, x, None), None, parts);
  }

  /** The segments before the last still lead to x's old parent once x has moved to root level. */
  lemma PrefixStillResolves(t: Tree, x: Id, parts: seq<string>)
    requires WellFormed(t) && |parts| >= 2
    requires x in t.nodes && SiblingsUnique(Reparent(t, x, None))
    requires ResolveFrom(t, None, parts) == Some(x)
    ensures t.nodes[x].parent.Some?
    ensures ResolveFrom(Reparent(t, x, None), None, parts[..|parts| - 1]) == t.nodes[x].parent
  {
    var n := |parts|;
    var chain := ResolveSound(t, None, parts);
    assert chain[n - 1] == x;
    PrefixUnaffected(t, chain, parts);
    assert WellFormed(Reparent(t, x, None));
    ResolveComplete(Reparent(t, x, None), None, chain[..n - 1], parts[..n - 1]);
  }

  /** The directories above the moved one keep their places. */
  lemma PrefixUnaffected(t: Tree, chain: seq<Id>, parts: seq<string>)
    requires IsChain(t, None, chain, parts) && |parts| >= 2
    ensures IsChain(Reparent(t, chain[|chain| - 1], None), None, chain[..|chain| - 1], parts[..|parts| - 1])
  {
    var n := |chain|;
    var t' := Reparent(t, chain[n - 1], None);
    ChainFromRootDistinct(t, chain, parts);
    forall i | 0 <= i < n - 1
      ensures t'.nodes[chain[i]] == t.nodes[chain[i]]
    {
      assert chain[i] != chain[n - 1];
    }
  }

  /** Once moved to root level, x is no longer found under its old parent. */
  lemma MovedAwayMisses(t: Tree, x: Id, p: Id, name: string)
    requires SiblingsUnique(t)
    requires x in t.nodes && t.nodes[x] == Node(name, Some(p))
    ensures Lookup(Reparent(t, x, None), Some(p), name) == None
  {
    var t' := Reparent(t, x, None);
    forall k | k in t'.nodes
      ensures t'.nodes[k] != Node(name, Some(p))
    {
      if k != x {
        assert t'.nodes[k] == t.nodes[k];
      }
    }
  }
}
