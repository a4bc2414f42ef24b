/**
  DirectoryTreeService: the operations of the service on the repository's table, each proved
  to compute what the corresponding function of the model says.
*/
module Service {
  import opened Wrappers
  import opened JavaStrings
  import opened Store
  import opened Resolve
  import opened Create
  import opened Move
  import opened Delete
  import opened Render

  /** A text buffer that only grows at its end. */
  class StringBuilder {
    var text: string

    constructor ()
      ensures text == ""
    {
      text := "";
    }

    method Append(s: string)
      modifies this
      ensures text == old(text) + s
    {
      text := text + s;
    }
  }

  class DirectoryTreeService {
    const repository: Repository

    constructor (repository: Repository)
      ensures this.repository == repository
    {
      this.repository := repository;
    }

    /**
      createDirectory: saves the directory as given: a new row when it has no id or an id without
      a row, otherwise an update of the row with its id.
    */
    method CreateDirectory(id: Option<Id>, directory: Node) returns (saved: Id)
      requires repository.Valid()
      requires directory.parent.Some? ==> directory.parent.value in repository.nodes
      modifies repository
      ensures repository.Valid()
      ensures (id.None? || id.value !in old(repository.nodes)) ==>
        saved == old(repository.nextId) && repository.Model() == Insert(old(repository.Model()), directory)
      ensures id.Some? && id.value in old(repository.nodes) ==>
        saved == id.value && repository.Model() == Tree(old(repository.nodes)[saved := directory], old(repository.nextId))
    {
      saved := repository.Save(id, directory);
    }

    /** createDirectoryFromPath: the loop over the segments, saving each one that is missing. */
    method CreateDirectoryFromPath(path: string) returns (r: Result<Id>)
      requires repository.Valid()
      modifies repository
      ensures repository.Valid()
      ensures (repository.Model(), r) == CreatePath(old(repository.Model()), path)
    {
      ghost var t0 := repository.Model();
      var parts := Split(path);
      if parts == [] {
        // the loop runs no iteration and `current.getName()` dereferences null
        return Err(NullDereference);
      }
      var leaf := parts[|parts| - 1];
      ghost var w := CreateWalk(t0, None, parts, leaf);
      assert CreatePath(t0, path) == (w.tree, if w.conflict then Err(AlreadyExists(ConflictMessage + path)) else Ok(w.current.value));
      var parent: Option<Id> := None;
      var current: Option<Id> := None;
      var i := 0;
      while i < |parts|
        invariant 0 <= i <= |parts|
        invariant repository.Valid()
        invariant Below(repository.Model(), parent)
        invariant parent == current && (i > 0 ==> current.Some?)
        invariant w == CreateWalk(repository.Model(), parent, parts[i..], leaf)
      {
        var part := parts[i];
        ghost var t := repository.Model();
        WalkStep(t, parent, parts, i, leaf);
        if parent.None? {
          current := repository.FindByNameAndParentIsNull(part);
        } else {
          current := repository.FindByNameAndParent(part, parent.value);
        }
        assert current == Lookup(t, parent, part);
        if current.None? {
          var saved := repository.Save(None, Node(part, parent));
          assert repository.Model() == Insert(t, Node(part, parent));
          current := Some(saved);
        } else if part == leaf {
          return Err(AlreadyExists(ConflictMessage + path));
        }
        parent := current;
        i := i + 1;
      }
      assert parts[i..] == [];
      return Ok(current.value);
    }

    /** findDirectoryByPath: the loop over the segments, giving up at the first one not found. */
    method FindDirectoryByPath(path: string) returns (r: Result<Option<Id>>)
      ensures r == ResolvePath(repository.Model(), path)
    {
      ghost var t := repository.Model();
      var parts := Split(path);
      var current: Option<Id> := None;
      var i := 0;
      while i < |parts|
        invariant 0 <= i <= |parts|
        invariant i > 0 ==> current.Some?
        invariant ResolveFrom(t, None, parts) == ResolveFrom(t, current, parts[i..])
      {
        assert parts[i..][0] == parts[i] && parts[i..][1..] == parts[i + 1..];
        if current.None? {
          current := repository.FindByNameAndParentIsNull(parts[i]);
        } else {
          current := repository.FindByNameAndParent(parts[i], current.value);
        }
        if current.None? {
          return Ok(None);
        }
        i := i + 1;
      }
      if current.None? {
        // no segment at all: `current.getName()` dereferences null
        return Err(NullDereference);
      }
      return Ok(current);
    }

    /** moveDirectory: resolves both paths, then saves the source with its new parent. */
    method MoveDirectory(source: string, target: string) returns (r: Result<Option<Id>>)
      requires repository.Valid()
      modifies repository
      ensures repository.Valid()
      ensures (repository.Model(), r) == MovePath(old(repository.Model()), source, target)
    {
      var src := FindDirectoryByPath(source);
      if src.Err? {
        return Err(src.failure);
      }
      var dst: Result<Option<Id>> := Ok(None);
      if target != "" {
        dst := FindDirectoryByPath(target);
      }
      if dst.Err? {
        return Err(dst.failure);
      }
      if src.value.None? {
        return Ok(None);
      }
      var x := src.value.value;
      var saved := repository.Save(Some(x), Node(repository.nodes[x].name, dst.value));
      return Ok(Some(saved));
    }

    /** deleteDirectory: resolves the path and deletes what it names, with its whole subtree. */
    method DeleteDirectory(path: string) returns (r: Result<bool>)
      requires repository.Valid()
      modifies repository
      ensures repository.Valid()
      ensures (repository.Model(), r) == DeletePath(old(repository.Model()), path)
    {
      var found := FindDirectoryByPath(path);
      if found.Err? {
        return Err(found.failure);
      }
      if found.value.None? {
        return Ok(false);
      }
      repository.Delete(found.value.value);
      return Ok(true);
    }

    /** listDirectories: every stored directory, once each. */
    method ListDirectories() returns (r: seq<Id>)
      requires repository.Valid()
      ensures Increasing(r)
      ensures forall k :: k in r <==> k in repository.nodes
    {
      r := repository.FindAll();
    }

    /** formatDirectoryStructure: the sorted root-level directories, each formatted at level 0. */
    method FormatDirectoryStructure() returns (s: string)
      ensures s == RenderForest(repository.Model())
    {
      ghost var t := repository.Model();
      var roots := SortedRoots(repository.Model());
      SortedRootsAt(t);
      var sb := new StringBuilder();
      var i := 0;
      assert roots[..0] == [];
      while i < |roots|
        invariant 0 <= i <= |roots|
        invariant RootsAt(t, roots[..i])
        invariant sb.text == Text(t, RootsEntries(t, roots[..i]))
      {
        RootsStep(t, roots, i);
        FormatDirectory(roots[i], [roots[i]], sb, 0);
        i := i + 1;
      }
      assert roots[..|roots|] == roots;
      s := sb.text;
    }

    /** The first lines of formatDirectory: two spaces per level, the name, a line break. */
    method AppendLine(x: Id, sb: StringBuilder, level: nat)
      requires x in repository.nodes
      modifies sb
      ensures sb.text == old(sb.text) + (Indent(level) + repository.nodes[x].name + "\n")
    {
      var i := 0;
      while i < level
        invariant 0 <= i <= level
        invariant sb.text == old(sb.text) + Indent(i)
      {
        sb.Append("  ");
        i := i + 1;
      }
      sb.Append(repository.nodes[x].name);
      sb.Append("\n");
    }

    /**
      formatDirectory: the directory's line indented by two spaces per level, then its sorted
      subdirectories one level deeper. `path` is the chain from the root-level directory down
      to `x`, which bounds the recursion.
    */
    method FormatDirectory(x: Id, ghost path: seq<Id>, sb: StringBuilder, level: nat)
      requires RootPath(repository.Model(), path) && path[|path| - 1] == x
      modifies sb
      ensures sb.text == old(sb.text) + Text(repository.Model(), NodeEntries(repository.Model(), path, level))
      decreases repository.nodes.Keys - Elems(path), 1
    {
      ghost var t := repository.Model();
      AppendLine(x, sb, level);
      ghost var head := sb.text;
      var subs := SortedChildren(repository.Model(), x);
      SortedChildrenAt(t, x);
      FormatSubdirectories(x, path, subs, sb, level + 1);
      FormatComplete(t, path, level, subs, old(sb.text), head, sb.text);
    }

    /** The loop of formatDirectory over the sorted subdirectories `subs` of x. */
    method FormatSubdirectories(x: Id, ghost path: seq<Id>, subs: seq<Id>, sb: StringBuilder, level: nat)
      requires RootPath(repository.Model(), path) && path[|path| - 1] == x
      requires ChildrenAt(repository.Model(), x, subs)
      modifies sb
      ensures sb.text == old(sb.text) + Text(repository.Model(), ChildrenEntries(repository.Model(), path, subs, level))
      decreases repository.nodes.Keys - Elems(path), 0
    {
      ghost var t := repository.Model();
      ghost var before := sb.text;
      var j := 0;
      assert subs[..0] == [];
      while j < |subs|
        invariant 0 <= j <= |subs|
        invariant ChildrenAt(t, x, subs[..j])
        invariant sb.text == before + Text(t, ChildrenEntries(t, path, subs[..j], level))
      {
        ChildrenStep(t, path, subs, j, level);
        FormatDirectory(subs[j], path + [subs[j]], sb, level);
        AppendAssoc(before, Text(t, ChildrenEntries(t, path, subs[..j], level)), Text(t, NodeEntries(t, path + [subs[j]], level)));
        j := j + 1;
      }
      assert subs[..|subs|] == subs;
    }
  }
}
