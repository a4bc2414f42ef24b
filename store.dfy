/**
  The directory table behind DirectoryRepository: rows keyed by generated id, each holding a
  name and the id of its parent. A directory's subdirectories are not stored anywhere: they are
  the rows whose parent is that directory (the `mappedBy = "parent"` relationship).
*/
module Store {
  import opened Wrappers

  type Id = nat

  /** One directory row: its name and its parent's id (None for a root-level directory). */
  datatype Node = Node(name: string, parent: Option<Id>)

  /** The table together with the next value of the identity generator. */
  datatype Tree = Tree(nodes: map<Id, Node>, next: Id)

  /** Ids come from the generator, and every parent reference names a stored row (the parent_id foreign key). */
  ghost predicate WellFormed(t: Tree) {
    && (forall k :: k in t.nodes ==> k < t.next)
    && (forall k :: k in t.nodes && t.nodes[k].parent.Some? ==> t.nodes[k].parent.value in t.nodes)
  }

  /** No two directories with the same parent (or both at root level) share a name. */
  ghost predicate SiblingsUnique(t: Tree) {
    forall a, b :: a in t.nodes && b in t.nodes && a != b && t.nodes[a].parent == t.nodes[b].parent
      ==> t.nodes[a].name != t.nodes[b].name
  }

  predicate Increasing(s: seq<Id>) {
    forall i, j :: 0 <= i < j < |s| ==> s[i] < s[j]
  }

  function FirstMatch(t: Tree, parent: Option<Id>, name: string, from: nat): (r: Option<Id>)
    ensures r.Some? ==> from <= r.value < t.next && r.value in t.nodes && t.nodes[r.value] == Node(name, parent)
    ensures forall k :: from <= k < t.next && k in t.nodes && (r.None? || k < r.value) ==> t.nodes[k] != Node(name, parent)
    decreases t.next - from
  {
    if from >= t.next then None
    else if from in t.nodes && t.nodes[from] == Node(name, parent) then Some(from)
    else FirstMatch(t, parent, name, from + 1)
  }

  /**
    findByNameAndParentIsNull (parent None) and findByNameAndParent: the directory called `name`
    directly under `parent`. Should several match, the one with the smallest id.
  */
  function Lookup(t: Tree, parent: Option<Id>, name: string): (r: Option<Id>)
    ensures r.Some? ==> r.value < t.next && r.value in t.nodes && t.nodes[r.value] == Node(name, parent)
    ensures forall k :: k in t.nodes && k < t.next && (r.None? || k < r.value) ==> t.nodes[k] != Node(name, parent)
  {
    FirstMatch(t, parent, name, 0)
  }

  function ScanChildren(t: Tree, parent: Option<Id>, from: nat): (r: seq<Id>)
    ensures Increasing(r)
    ensures forall k :: k in r <==> from <= k < t.next && k in t.nodes && t.nodes[k].parent == parent
    decreases t.next - from
  {
    if from >= t.next then []
    else if from in t.nodes && t.nodes[from].parent == parent then
      var rest := ScanChildren(t, parent, from + 1);
      assert forall j :: 0 <= j < |rest| ==> from < rest[j] by {
        forall j | 0 <= j < |rest| ensures from < rest[j] { assert rest[j] in rest; }
      }
      [from] + rest
    else ScanChildren(t, parent, from + 1)
  }

  /**
    findByParentIsNull (parent None) and getSubdirectories (parent Some(p)): the directories
    whose parent reference is `parent`, in id order. The child list is the inverse of the parent field.
  */
  function ChildrenOf(t: Tree, parent: Option<Id>): (r: seq<Id>)
    ensures Increasing(r)
    ensures forall k :: k in r <==> k in t.nodes && k < t.next && t.nodes[k].parent == parent
  {
    ScanChildren(t, parent, 0)
  }

  function ScanAll(t: Tree, from: nat): (r: seq<Id>)
    ensures Increasing(r)
    ensures forall k :: k in r <==> from <= k < t.next && k in t.nodes
    decreases t.next - from
  {
    if from >= t.next then []
    else if from in t.nodes then
      var rest := ScanAll(t, from + 1);
      assert forall j :: 0 <= j < |rest| ==> from < rest[j] by {
        forall j | 0 <= j < |rest| ensures from < rest[j] { assert rest[j] in rest; }
      }
      [from] + rest
    else ScanAll(t, from + 1)
  }

  /** The k-th ancestor of y along parent references (y itself for k = 0), if the chain is that long. */
  function Ancestor(t: Tree, y: Id, k: nat): Option<Id>
    decreases k
  {
    if k == 0 then Some(y)
    else if y in t.nodes && t.nodes[y].parent.Some? then Ancestor(t, t.nodes[y].parent.value, k - 1)
    else None
  }

  /** y is x or a descendant of x: x lies on y's parent chain. */
  ghost predicate InSubtree(t: Tree, x: Id, y: Id) {
    y in t.nodes && exists k: nat :: Ancestor(t, y, k) == Some(x)
  }

  /** y's parent chain ends at a root-level directory. */
  ghost predicate Rooted(t: Tree, y: Id) {
    exists k: nat :: var a := Ancestor(t, y, k); a.Some? && a.value in t.nodes && t.nodes[a.value].parent.None?
  }

  /** The table is a forest: no parent chain runs in a circle. */
  ghost predicate Acyclic(t: Tree) {
    forall y :: y in t.nodes ==> Rooted(t, y)
  }

  /** The table after the cascading removal of x and everything below it. */
  ghost function RemoveSubtree(t: Tree, x: Id): Tree {
    Tree(map y | y in t.nodes && !InSubtree(t, x, y) :: t.nodes[y], t.next)
  }

  /** t' keeps every row of t and adds rows only under ids t's generator had not yet handed out. */
  ghost predicate Grows(t: Tree, t': Tree) {
    && t.next <= t'.next
    && (forall k :: k in t.nodes ==> k in t'.nodes && t'.nodes[k] == t.nodes[k])
    && (forall k :: k in t'.nodes && k !in t.nodes ==> t.next <= k)
  }

  /** With unique sibling names a lookup finds the one directory of that name under that parent. */
  lemma LookupFindsUnique(t: Tree, parent: Option<Id>, name: string, k: Id)
    requires WellFormed(t) && SiblingsUnique(t)
    requires k in t.nodes && t.nodes[k] == Node(name, parent)
    ensures Lookup(t, parent, name) == Some(k)
  {
  }

  /** Adding rows under fresh ids does not change which directory an existing lookup finds. */
  lemma LookupStable(t: Tree, t': Tree, parent: Option<Id>, name: string)
    requires WellFormed(t) && Grows(t, t')
    requires Lookup(t, parent, name).Some?
    ensures Lookup(t', parent, name) == Lookup(t, parent, name)
  {
    var c := Lookup(t, parent, name).value;
    assert t'.nodes[c] == Node(name, parent);
  }

  /** Two tables with the same generator state and the same matching rows answer a lookup alike. */
  lemma LookupSameMatches(t: Tree, t': Tree, parent: Option<Id>, name: string)
    requires t.next == t'.next
    requires forall k :: k < t.next ==> ((k in t.nodes && t.nodes[k] == Node(name, parent)) <==> (k in t'.nodes && t'.nodes[k] == Node(name, parent)))
    ensures Lookup(t', parent, name) == Lookup(t, parent, name)
  {
  }

  /** Inserting a row under the next id makes a lookup that found nothing find that row. */
  lemma LookupAfterInsert(t: Tree, parent: Option<Id>, name: string)
    requires WellFormed(t)
    requires Lookup(t, parent, name).None?
    ensures Lookup(Tree(t.nodes[t.next := Node(name, parent)], t.next + 1), parent, name) == Some(t.next)
  {
    var t' := Tree(t.nodes[t.next := Node(name, parent)], t.next + 1);
    assert t'.nodes[t.next] == Node(name, parent);
  }

  /** Following a + b parent references is following a of them and then b more. */
  lemma {:induction false} AncestorAdd(t: Tree, y: Id, a: nat, b: nat)
    requires Ancestor(t, y, a).Some?
    ensures Ancestor(t, y, a + b) == Ancestor(t, Ancestor(t, y, a).value, b)
    decreases a
  {
    if a > 0 {
      AncestorAdd(t, t.nodes[y].parent.value, a - 1, b);
    }
  }

  /** The table with one more row, stored under the next generated id. */
  function Insert(t: Tree, n: Node): (t': Tree)
    ensures t'.nodes.Keys == t.nodes.Keys + {t.next} && t'.nodes[t.next] == n && t'.next == t.next + 1
  {
    Tree(t.nodes[t.next := n], t.next + 1)
  }

  /** Inserting a row whose name is not yet taken under its parent keeps sibling names unique. */
  lemma InsertKeepsSiblingsUnique(t: Tree, n: Node)
    requires WellFormed(t) && SiblingsUnique(t)
    requires Lookup(t, n.parent, n.name).None?
    ensures SiblingsUnique(Insert(t, n))
  {
  }

  lemma {:induction false} AncestorAfterInsert(t: Tree, n: Node, y: Id, k: nat)
    requires WellFormed(t) && y in t.nodes
    ensures Ancestor(Insert(t, n), y, k) == Ancestor(t, y, k)
    decreases k
  {
    if k > 0 && t.nodes[y].parent.Some? {
      AncestorAfterInsert(t, n, t.nodes[y].parent.value, k - 1);
    }
  }

  /** Inserting a row whose parent is stored (or that is root-level) keeps the table well formed and a forest. */
  lemma InsertPreserves(t: Tree, n: Node)
    requires WellFormed(t)
    requires n.parent.Some? ==> n.parent.value in t.nodes
    ensures WellFormed(Insert(t, n)) && Grows(t, Insert(t, n))
    ensures Acyclic(t) ==> Acyclic(Insert(t, n))
  {
    var t' := Insert(t, n);
    if Acyclic(t) {
      forall y | y in t'.nodes
        ensures Rooted(t', y)
      {
        if y in t.nodes {
          var k: nat :| var a := Ancestor(t, y, k); a.Some? && a.value in t.nodes && t.nodes[a.value].parent.None?;
          AncestorAfterInsert(t, n, y, k);
        } else if n.parent.None? {
          assert Ancestor(t', y, 0) == Some(y);
        } else {
          var p := n.parent.value;
          var k: nat :| var a := Ancestor(t, p, k); a.Some? && a.value in t.nodes && t.nodes[a.value].parent.None?;
          AncestorAfterInsert(t, n, p, k);
          assert Ancestor(t', y, k + 1) == Ancestor(t', p, k);
        }
      }
    }
  }

  lemma {:induction false} AncestorInClosedSet(t: Tree, x: Id, doomed: set<Id>, y: Id, k: nat)
    requires x in doomed
    requires forall z :: z in t.nodes && t.nodes[z].parent.Some? && t.nodes[z].parent.value in doomed ==> z in doomed
    requires Ancestor(t, y, k) == Some(x)
    ensures y in doomed
    decreases k
  {
    if k > 0 {
      AncestorInClosedSet(t, x, doomed, t.nodes[y].parent.value, k - 1);
    }
  }

  /** A child of a node in x's subtree is in x's subtree. */
  lemma ChildInSubtree(t: Tree, x: Id, p: Id, y: Id)
    requires InSubtree(t, x, p)
    requires y in t.nodes && t.nodes[y].parent == Some(p)
    ensures InSubtree(t, x, y)
  {
    var k: nat :| Ancestor(t, p, k) == Some(x);
    assert Ancestor(t, y, k + 1) == Some(x);
  }

  /** After the cascading removal no remaining directory refers to a removed parent. */
  lemma RemoveSubtreeKeepsWellFormed(t: Tree, x: Id)
    requires WellFormed(t)
    ensures WellFormed(RemoveSubtree(t, x))
  {
    var t' := RemoveSubtree(t, x);
    forall y | y in t'.nodes && t'.nodes[y].parent.Some?
      ensures t'.nodes[y].parent.value in t'.nodes
    {
      var p := t.nodes[y].parent.value;
      if InSubtree(t, x, p) {
        ChildInSubtree(t, x, p, y);
      }
    }
  }

  /** The repository: the table as mutable state, with the queries and the writes the service uses. */
  class Repository {
    var nodes: map<Id, Node>
    var nextId: Id

    function Model(): Tree
      reads this
    {
      Tree(nodes, nextId)
    }

    ghost predicate Valid()
      reads this
    {
      WellFormed(Model())
    }

    constructor ()
      ensures Valid() && Model() == Tree(map[], 0)
    {
      nodes := map[];
      nextId := 0;
    }

    /** findByNameAndParentIsNull */
    function FindByNameAndParentIsNull(name: string): (r: Option<Id>)
      reads this
      ensures r.Some? ==> r.value in nodes && nodes[r.value] == Node(name, None)
      ensures r.None? ==> forall k :: k in nodes && k < nextId ==> nodes[k] != Node(name, None)
    {
      Lookup(Model(), None, name)
    }

    /** findByNameAndParent */
    function FindByNameAndParent(name: string, parent: Id): (r: Option<Id>)
      reads this
      ensures r.Some? ==> r.value in nodes && nodes[r.value] == Node(name, Some(parent))
      ensures r.None? ==> forall k :: k in nodes && k < nextId ==> nodes[k] != Node(name, Some(parent))
    {
      Lookup(Model(), Some(parent), name)
    }

    /** findByParentIsNull */
    function FindByParentIsNull(): (r: seq<Id>)
      reads this
      ensures Increasing(r)
      ensures forall k :: k in r <==> k in nodes && k < nextId && nodes[k].parent.None?
    {
      ChildrenOf(Model(), None)
    }

    /** The subdirectories collection of directory `id`, loaded through its parent references. */
    function Subdirectories(id: Id): (r: seq<Id>)
      reads this
      ensures Increasing(r)
      ensures forall k :: k in r <==> k in nodes && k < nextId && nodes[k].parent == Some(id)
    {
      ChildrenOf(Model(), Some(id))
    }

    /** findAll */
    function FindAll(): (r: seq<Id>)
      reads this
      ensures Increasing(r)
      ensures forall k :: k in r <==> k in nodes && k < nextId
    {
      ScanAll(Model(), 0)
    }

    /**
      save: a directory without an id, or with an id that has no row, is inserted under a freshly
      generated id (JPA's merge of a detached entity); one whose id has a row overwrites it.
      Either way the saved directory's id is returned.
    */
    method Save(id: Option<Id>, n: Node) returns (saved: Id)
      requires Valid()
      requires n.parent.Some? ==> n.parent.value in nodes
      modifies this
      ensures Valid()
      ensures (id.None? || id.value !in old(nodes)) ==> saved == old(nextId) && nextId == old(nextId) + 1
      ensures id.Some? && id.value in old(nodes) ==> saved == id.value && nextId == old(nextId)
      ensures nodes == old(nodes)[saved := n]
    {
      if id.None? || id.value !in nodes {
        saved := nextId;
        nextId := nextId + 1;
      } else {
        saved := id.value;
      }
      nodes := nodes[saved := n];
    }

    /**
      delete: removes directory x and, through the cascade on its subdirectories, every
      directory below it; nothing else.
    */
    method Delete(x: Id)
      requires Valid() && x in nodes
      modifies this
      ensures Valid()
      ensures Model() == RemoveSubtree(old(Model()), x)
    {
      ghost var t := Model();
      var doomed: set<Id> := {x};
      var pending: set<Id> := {x};
      assert Ancestor(t, x, 0) == Some(x);
      while pending != {}
        invariant Model() == t
        invariant x in doomed && pending <= doomed <= nodes.Keys
        invariant forall y :: y in doomed ==> InSubtree(t, x, y)
        invariant forall y :: y in nodes && nodes[y].parent.Some? && nodes[y].parent.value in doomed - pending ==> y in doomed
        decreases nodes.Keys - doomed, pending
      {
        var p :| p in pending;
        var children := set y | y in nodes.Keys && nodes[y].parent == Some(p) && y !in doomed;
        forall y | y in children
          ensures InSubtree(t, x, y)
        {
          ChildInSubtree(t, x, p, y);
        }
        doomed := doomed + children;
        pending := pending - {p} + children;
      }
      forall y | InSubtree(t, x, y)
        ensures y in doomed
      {
        var k: nat :| Ancestor(t, y, k) == Some(x);
        AncestorInClosedSet(t, x, doomed, y, k);
      }
      nodes := map y | y in nodes && y !in doomed :: nodes[y];
      RemoveSubtreeKeepsWellFormed(t, x);
    }
  }
}
