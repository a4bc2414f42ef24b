/** createDirectoryFromPath: `mkdir -p` with a conflict on an existing leaf name. */
module Create {
  import opened Wrappers
  import opened JavaStrings
  import opened Store
  import opened Resolve

  /** Where the loop of createDirectoryFromPath ends: the table, `current`, and whether it threw the conflict. */
  datatype Walk = Walk(tree: Tree, current: Option<Id>, conflict: bool)

  const ConflictMessage: string := "Directory already exists with path: "

  /** `at` is root level or a stored directory. */
  ghost predicate Below(t: Tree, at: Option<Id>) {
    at.None? || at.value in t.nodes
  }

  /**
    The loop of createDirectoryFromPath over the segments still to do, below `at`: a segment
    that is missing is saved as a new directory under `at`; one that exists and is named like the
    last segment (`leaf`) throws the conflict; otherwise the walk goes on below the directory found.
  */
  function CreateWalk(t: Tree, at: Option<Id>, parts: seq<string>, leaf: string): (w: Walk)
    ensures parts != [] ==> w.current.Some?
    decreases |parts|
  {
    if parts == [] then Walk(t, at, false)
    else match Lookup(t, at, parts[0])
      case None => CreateWalk(Insert(t, Node(parts[0], at)), Some(t.next), parts[1..], leaf)
      case Some(c) =>
        if parts[0] == leaf then Walk(t, Some(c), true)
        else CreateWalk(t, Some(c), parts[1..], leaf)
  }

  /** One turn of the loop: the walk over parts[i..] from `at`, by what the lookup of parts[i] finds. */
  lemma WalkStep(t: Tree, at: Option<Id>, parts: seq<string>, i: nat, leaf: string)
    requires i < |parts|
    ensures var w := CreateWalk(t, at, parts[i..], leaf);
      match Lookup(t, at, parts[i])
      case None => w == CreateWalk(Insert(t, Node(parts[i], at)), Some(t.next), parts[i + 1..], leaf)
      case Some(c) => w == if parts[i] == leaf then Walk(t, Some(c), true) else CreateWalk(t, Some(c), parts[i + 1..], leaf)
  {
    assert parts[i..][0] == parts[i] && parts[i..][1..] == parts[i + 1..];
  }

  /**
    createDirectoryFromPath: the table afterwards and the leaf directory, the conflict (with the
    whole path in its message), or the null dereference of a path that splits into no segments.
  */
  function CreatePath(t: Tree, path: string): (r: (Tree, Result<Id>))
    ensures r.1 == Err(NullDereference) <==> Split(path) == []
    ensures Split(path) == [] ==> r.0 == t
    ensures r.1.Err? ==> r.1 == Err(NullDereference) || r.1 == Err(AlreadyExists(ConflictMessage + path))
  {
    var parts := Split(path);
    if parts == [] then (t, Err(NullDereference))
    else
      var w := CreateWalk(t, None, parts, parts[|parts| - 1]);
      if w.conflict then (w.tree, Err(AlreadyExists(ConflictMessage + path)))
      else (w.tree, Ok(w.current.value))
  }

  lemma {:induction false} WalkGrows(t: Tree, at: Option<Id>, parts: seq<string>, leaf: string)
    requires WellFormed(t) && Below(t, at)
    ensures var w := CreateWalk(t, at, parts, leaf);
      WellFormed(w.tree) && Grows(t, w.tree) && Below(w.tree, w.current)
    ensures Acyclic(t) ==> Acyclic(CreateWalk(t, at, parts, leaf).tree)
    decreases |parts|
  {
    if parts != [] {
      match Lookup(t, at, parts[0]) {
        case None =>
          var t1 := Insert(t, Node(parts[0], at));
          InsertPreserves(t, Node(parts[0], at));
          WalkGrows(t1, Some(t.next), parts[1..], leaf);
        case Some(c) =>
          if parts[0] != leaf {
            WalkGrows(t, Some(c), parts[1..], leaf);
          }
      }
    }
  }

  lemma {:induction false} WalkResolves(t: Tree, at: Option<Id>, parts: seq<string>, leaf: string)
    requires WellFormed(t) && Below(t, at)
    ensures var w := CreateWalk(t, at, parts, leaf);
      !w.conflict ==> ResolveFrom(w.tree, at, parts) == w.current
    decreases |parts|
  {
    if parts != [] {
      var w := CreateWalk(t, at, parts, leaf);
      match Lookup(t, at, parts[0]) {
        case None =>
          var t1 := Insert(t, Node(parts[0], at));
          assert w == CreateWalk(t1, Some(t.next), parts[1..], leaf);
          InsertPreserves(t, Node(parts[0], at));
          LookupAfterInsert(t, at, parts[0]);
          WalkGrows(t1, Some(t.next), parts[1..], leaf);
          WalkResolves(t1, Some(t.next), parts[1..], leaf);
          LookupStable(t1, w.tree, at, parts[0]);
        case Some(c) =>
          if parts[0] != leaf {
            assert w == CreateWalk(t, Some(c), parts[1..], leaf);
            WalkGrows(t, Some(c), parts[1..], leaf);
            WalkResolves(t, Some(c), parts[1..], leaf);
            LookupStable(t, w.tree, at, parts[0]);
          }
      }
    }
  }

  /** Below a directory that has no subdirectories, every segment is missing, so nothing conflicts. */
  lemma {:induction false} FreshWalkNoConflict(t: Tree, a: Id, parts: seq<string>, leaf: string)
    requires WellFormed(t) && a in t.nodes
    requires forall k :: k in t.nodes ==> t.nodes[k].parent != Some(a)
    ensures !CreateWalk(t, Some(a), parts, leaf).conflict
    decreases |parts|
  {
    if parts != [] {
      assert Lookup(t, Some(a), parts[0]).None?;
      var t1 := Insert(t, Node(parts[0], Some(a)));
      InsertPreserves(t, Node(parts[0], Some(a)));
      FreshWalkNoConflict(t1, t.next, parts[1..], leaf);
    }
  }

  lemma {:induction false} WalkConflictKeepsTree(t: Tree, at: Option<Id>, parts: seq<string>, leaf: string)
    requires WellFormed(t) && Below(t, at)
    ensures var w := CreateWalk(t, at, parts, leaf); w.conflict ==> w.tree == t
    decreases |parts|
  {
    if parts != [] {
      match Lookup(t, at, parts[0]) {
        case None =>
          InsertPreserves(t, Node(parts[0], at));
          FreshWalkNoConflict(Insert(t, Node(parts[0], at)), t.next, parts[1..], leaf);
        case Some(c) =>
          if parts[0] != leaf {
            WalkConflictKeepsTree(t, Some(c), parts[1..], leaf);
          }
      }
    }
  }

  /** The walk conflicts exactly when some segment named like the leaf already exists where the walk reaches it. */
  lemma {:induction false} WalkConflictIff(t: Tree, at: Option<Id>, parts: seq<string>, leaf: string)
    requires WellFormed(t) && Below(t, at)
    ensures CreateWalk(t, at, parts, leaf).conflict <==>
      exists i :: 0 <= i < |parts| && parts[i] == leaf && ResolveFrom(t, at, parts[..i + 1]).Some?
    decreases |parts|
  {
    if parts != [] {
      match Lookup(t, at, parts[0]) {
        case None =>
          InsertPreserves(t, Node(parts[0], at));
          FreshWalkNoConflict(Insert(t, Node(parts[0], at)), t.next, parts[1..], leaf);
          MissingFirst(t, at, parts, leaf);
        case Some(c) =>
          if parts[0] == leaf {
            assert parts[..1][1..] == [];
            assert ResolveFrom(t, at, parts[..1]) == Some(c);
          } else {
            WalkConflictIff(t, Some(c), parts[1..], leaf);
            ConflictBelow(t, at, parts, leaf, c);
          }
      }
    }
  }

  /** When the first segment is missing, no prefix of the path resolves. */
  lemma MissingFirst(t: Tree, at: Option<Id>, parts: seq<string>, leaf: string)
    requires parts != [] && Lookup(t, at, parts[0]).None?
    ensures forall i :: 0 <= i < |parts| && parts[i] == leaf ==> ResolveFrom(t, at, parts[..i + 1]).None?
  {
    forall i | 0 <= i < |parts| && parts[i] == leaf
      ensures ResolveFrom(t, at, parts[..i + 1]).None?
    {
      assert parts[..i + 1][0] == parts[0];
    }
  }

  /** The conflict test one level down: the walk continues below c exactly as the path does. */
  lemma ConflictBelow(t: Tree, at: Option<Id>, parts: seq<string>, leaf: string, c: Id)
    requires parts != [] && Lookup(t, at, parts[0]) == Some(c) && parts[0] != leaf
    requires CreateWalk(t, Some(c), parts[1..], leaf).conflict <==>
      exists i :: 0 <= i < |parts[1..]| && parts[1..][i] == leaf && ResolveFrom(t, Some(c), parts[1..][..i + 1]).Some?
    ensures CreateWalk(t, at, parts, leaf).conflict <==>
      exists i :: 0 <= i < |parts| && parts[i] == leaf && ResolveFrom(t, at, parts[..i + 1]).Some?
  {
    var rest := parts[1..];
    forall i | 1 <= i < |parts|
      ensures ResolveFrom(t, at, parts[..i + 1]) == ResolveFrom(t, Some(c), rest[..i])
      ensures parts[i] == rest[i - 1]
    {
      assert parts[..i + 1][0] == parts[0];
      assert parts[..i + 1][1..] == rest[..i];
    }
    if CreateWalk(t, at, parts, leaf).conflict {
      var j :| 0 <= j < |rest| && rest[j] == leaf && ResolveFrom(t, Some(c), rest[..j + 1]).Some?;
      assert parts[j + 1] == leaf && ResolveFrom(t, at, parts[..j + 2]).Some?;
    } else {
      forall i | 0 <= i < |parts| && parts[i] == leaf
        ensures ResolveFrom(t, at, parts[..i + 1]).None?
      {
        assert i > 0;
        assert rest[i - 1] == leaf;
      }
    }
  }


  /** A walk along segments that all exist conflicts at the latest on the leaf, and saves nothing. */
  lemma {:induction false} WalkOverExisting(t: Tree, at: Option<Id>, parts: seq<string>)
    requires parts != [] && ResolveFrom(t, at, parts).Some?
    ensures var w := CreateWalk(t, at, parts, parts[|parts| - 1]); w.conflict && w.tree == t
    decreases |parts|
  {
    var c := Lookup(t, at, parts[0]).value;
    if parts[0] != parts[|parts| - 1] {
      assert |parts| > 1 && parts[1..][|parts| - 2] == parts[|parts| - 1];
      WalkOverExisting(t, Some(c), parts[1..]);
    }
  }

  lemma {:induction false} WalkKeepsSiblingsUnique(t: Tree, at: Option<Id>, parts: seq<string>, leaf: string)
    requires WellFormed(t) && SiblingsUnique(t) && Below(t, at)
    ensures SiblingsUnique(CreateWalk(t, at, parts, leaf).tree)
    decreases |parts|
  {
    if parts != [] {
      match Lookup(t, at, parts[0]) {
        case None =>
          InsertPreserves(t, Node(parts[0], at));
          InsertKeepsSiblingsUnique(t, Node(parts[0], at));
          WalkKeepsSiblingsUnique(Insert(t, Node(parts[0], at)), Some(t.next), parts[1..], leaf);
        case Some(c) =>
          if parts[0] != leaf {
            WalkKeepsSiblingsUnique(t, Some(c), parts[1..], leaf);
          }
      }
    }
  }

  lemma {:induction false} WalkChain(t: Tree, at: Option<Id>, parts: seq<string>, leaf: string) returns (chain: seq<Id>)
    requires WellFormed(t) && Below(t, at) && parts != []
    requires !CreateWalk(t, at, parts, leaf).conflict
    ensures var w := CreateWalk(t, at, parts, leaf);
      && IsChain(w.tree, at, chain, parts)
      && chain[|chain| - 1] == w.current.value
      && (forall k :: k in w.tree.nodes ==> k in t.nodes || k in chain)
    decreases |parts|
  {
    var t1, c := StepOf(t, at, parts, leaf);
    var w := CreateWalk(t1, Some(c), parts[1..], leaf);
    WalkGrows(t1, Some(c), parts[1..], leaf);
    if |parts| == 1 {
      chain := [c];
    } else {
      var rest := WalkChain(t1, Some(c), parts[1..], leaf);
      chain := [c] + rest;
      ChainCons(w.tree, at, c, rest, parts);
    }
  }

  /** One iteration that does not conflict: the table after it and the directory it continues below. */
  lemma StepOf(t: Tree, at: Option<Id>, parts: seq<string>, leaf: string) returns (t1: Tree, c: Id)
    requires WellFormed(t) && Below(t, at) && parts != []
    requires !CreateWalk(t, at, parts, leaf).conflict
    ensures WellFormed(t1) && Grows(t, t1)
    ensures c in t1.nodes && t1.nodes[c] == Node(parts[0], at)
    ensures forall k :: k in t1.nodes ==> k in t.nodes || k == c
    ensures CreateWalk(t, at, parts, leaf) == CreateWalk(t1, Some(c), parts[1..], leaf)
  {
    match Lookup(t, at, parts[0]) {
      case None =>
        t1, c := Insert(t, Node(parts[0], at)), t.next;
        InsertPreserves(t, Node(parts[0], at));
      case Some(found) =>
        t1, c := t, found;
    }
  }

  /** After createDirectoryFromPath(p) returns a directory, findDirectoryByPath(p) finds that directory. */
  lemma CreateThenResolve(t: Tree, path: string)
    requires WellFormed(t)
    requires CreatePath(t, path).1.Ok?
    ensures var (t', r) := CreatePath(t, path);
      WellFormed(t') && Grows(t, t') && ResolvePath(t', path) == Ok(Some(r.value))
  {
    var parts := Split(path);
    WalkGrows(t, None, parts, parts[|parts| - 1]);
    WalkResolves(t, None, parts, parts[|parts| - 1]);
  }

  /**
    A successful createDirectoryFromPath(p) leaves a chain of directories named by p's segments,
    each under the previous one (the first at root level), ending at the returned directory; every
    row it adds lies on that chain, and every row that was there is unchanged.
  */
  lemma CreateBuildsChain(t: Tree, path: string) returns (chain: seq<Id>)
    requires WellFormed(t)
    requires CreatePath(t, path).1.Ok?
    ensures var (t', r) := CreatePath(t, path);
      && IsChain(t', None, chain, Split(path))
      && chain[|chain| - 1] == r.value
      && (forall k :: k in t'.nodes ==> k in t.nodes || k in chain)
      && (forall k :: k in t.nodes ==> k in t'.nodes && t'.nodes[k] == t.nodes[k])
  {
    var parts := Split(path);
    WalkGrows(t, None, parts, parts[|parts| - 1]);
    chain := WalkChain(t, None, parts, parts[|parts| - 1]);
  }

  /** createDirectoryFromPath saves a directory only where its name is not yet taken, so sibling names stay unique. */
  lemma CreateKeepsSiblingsUnique(t: Tree, path: string)
    requires WellFormed(t) && SiblingsUnique(t)
    ensures SiblingsUnique(CreatePath(t, path).0)
  {
    var parts := Split(path);
    if parts != [] {
      WalkKeepsSiblingsUnique(t, None, parts, parts[|parts| - 1]);
    }
  }

  /** createDirectoryFromPath never leaves a malformed table, and keeps a forest a forest. */
  lemma CreatePreservesWellFormed(t: Tree, path: string)
    requires WellFormed(t)
    ensures WellFormed(CreatePath(t, path).0) && Grows(t, CreatePath(t, path).0)
    ensures Acyclic(t) ==> Acyclic(CreatePath(t, path).0)
  {
    var parts := Split(path);
    if parts != [] {
      var w := CreateWalk(t, None, parts, parts[|parts| - 1]);
      assert CreatePath(t, path).0 == w.tree;
      WalkGrows(t, None, parts, parts[|parts| - 1]);
    }
  }

  /**
    The conflict is decided by name, not by position: it is thrown exactly when, for some i,
    the first i + 1 segments already resolve and segment i is named like the last segment.
  */
  lemma CreateConflictIff(t: Tree, path: string)
    requires WellFormed(t)
    ensures var parts := Split(path);
      CreatePath(t, path).1 == Err(AlreadyExists(ConflictMessage + path)) <==>
      (parts != [] && exists i :: 0 <= i < |parts| && parts[i] == parts[|parts| - 1] && ResolveFrom(t, None, parts[..i + 1]).Some?)
  {
    var parts := Split(path);
    if parts != [] {
      WalkConflictIff(t, None, parts, parts[|parts| - 1]);
    }
  }

  /** A failed createDirectoryFromPath leaves the table as it was: no partly created path remains. */
  lemma CreateFailureKeepsTree(t: Tree, path: string)
    requires WellFormed(t)
    requires CreatePath(t, path).1.Err?
    ensures CreatePath(t, path).0 == t
  {
    var parts := Split(path);
    if parts != [] {
      WalkConflictKeepsTree(t, None, parts, parts[|parts| - 1]);
    }
  }

  /** Creating a path that already resolves throws the conflict and changes nothing. */
  lemma CreateExistingConflicts(t: Tree, path: string)
    requires ResolvePath(t, path).Ok? && ResolvePath(t, path).value.Some?
    ensures CreatePath(t, path) == (t, Err(AlreadyExists(ConflictMessage + path)))
  {
    var parts := Split(path);
    WalkOverExisting(t, None, parts);
  }

  /** Creating the same path twice: the first call succeeds, the second conflicts and changes nothing. */
  lemma CreateTwice(t: Tree, path: string)
    requires WellFormed(t)
    requires CreatePath(t, path).1.Ok?
    ensures var t1 := CreatePath(t, path).0;
      CreatePath(t1, path) == (t1, Err(AlreadyExists(ConflictMessage + path)))
  {
    CreateThenResolve(t, path);
    CreateExistingConflicts(CreatePath(t, path).0, path);
  }
}
