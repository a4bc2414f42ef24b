/** deleteDirectory: removal of a directory together with everything below it. */
module Delete {
  import opened Wrappers
  import opened JavaStrings
  import opened Store
  import opened Resolve

  /**
    deleteDirectory: false and no change when the path does not resolve; otherwise true, and
    the directory and its whole subtree are gone (the cascade on subdirectories).
  */
  ghost function DeletePath(t: Tree, path: string): (r: (Tree, Result<bool>))
    ensures r.1.Err? <==> Split(path) == []
    ensures r.1 != Ok(true) ==> r.0 == t
    ensures r.0.nodes.Keys <= t.nodes.Keys && r.0.next == t.next
  {
    match ResolvePath(t, path)
    case Err(f) => (t, Err(f))
    case Ok(None) => (t, Ok(false))
    case Ok(Some(x)) => (RemoveSubtree(t, x), Ok(true))
  }

  /** Nothing to delete: false, table unchanged. */
  lemma DeleteMissing(t: Tree, path: string)
    requires ResolvePath(t, path) == Ok(None)
    ensures DeletePath(t, path) == (t, Ok(false))
  {
  }

  /**
    A resolved path: true; the directory is gone, and so is exactly every directory whose parent
    chain passes through it; the others keep their rows.
  */
  lemma DeleteRemovesSubtree(t: Tree, path: string)
    requires ResolvePath(t, path).Ok? && ResolvePath(t, path).value.Some?
    ensures var x := ResolvePath(t, path).value.value;
      var (t', r) := DeletePath(t, path);
      && r == Ok(true)
      && x !in t'.nodes
      && (forall y :: y in t'.nodes <==> y in t.nodes && !InSubtree(t, x, y))
      && (forall y :: y in t'.nodes ==> t'.nodes[y] == t.nodes[y])
  {
    var x := ResolvePath(t, path).value.value;
    assert Ancestor(t, x, 0) == Some(x);
  }

  /** No remaining directory has a deleted parent. */
  lemma DeleteKeepsWellFormed(t: Tree, path: string)
    requires WellFormed(t)
    ensures WellFormed(DeletePath(t, path).0)
  {
    match ResolvePath(t, path) {
      case Err(_) =>
      case Ok(None) =>
      case Ok(Some(x)) => RemoveSubtreeKeepsWellFormed(t, x);
    }
  }

  lemma DeleteKeepsSiblingsUnique(t: Tree, path: string)
    requires SiblingsUnique(t)
    ensures SiblingsUnique(DeletePath(t, path).0)
  {
  }

  lemma {:induction false} AncestorAfterRemoval(t: Tree, x: Id, y: Id, k: nat)
    requires WellFormed(t) && y in t.nodes && !InSubtree(t, x, y)
    ensures Ancestor(RemoveSubtree(t, x), y, k) == Ancestor(t, y, k)
    ensures var a := Ancestor(t, y, k); a.Some? ==> a.value in t.nodes && !InSubtree(t, x, a.value)
    decreases k
  {
    if k > 0 && t.nodes[y].parent.Some? {
      var p := t.nodes[y].parent.value;
      if InSubtree(t, x, p) {
        ChildInSubtree(t, x, p, y);
      }
      AncestorAfterRemoval(t, x, p, k - 1);
    }
  }

  /** Deleting a subtree keeps a forest a forest. */
  lemma DeleteKeepsAcyclic(t: Tree, path: string)
    requires WellFormed(t) && Acyclic(t)
    ensures Acyclic(DeletePath(t, path).0)
  {
    if ResolvePath(t, path).Ok? && ResolvePath(t, path).value.Some? {
      var x := ResolvePath(t, path).value.value;
      var t' := RemoveSubtree(t, x);
      forall y | y in t'.nodes
        ensures Rooted(t', y)
      {
        var k: nat :| var a := Ancestor(t, y, k); a.Some? && a.value in t.nodes && t.nodes[a.value].parent.None?;
        AncestorAfterRemoval(t, x, y, k);
      }
    }
  }
}
