/**
  The Directory entity as an object: a name, an optional generated id, the list of its
  subdirectories and a reference to its parent, kept in step by addSubdirectory and
  removeSubdirectory.
*/
module Entity {
  import opened Wrappers

  class Directory {
    var id: Option<nat>
    var name: string
    var subdirectories: seq<Directory>
    var parent: Directory?

    /** A new, unsaved directory: no id, no subdirectories, no parent. */
    constructor (name: string)
      ensures this.name == name && id.None? && subdirectories == [] && parent == null
    {
      this.id := None;
      this.name := name;
      this.subdirectories := [];
      this.parent := null;
    }

    /** addSubdirectory: appends sub to the list and makes this its parent. */
    method AddSubdirectory(sub: Directory)
      modifies this, sub
      ensures subdirectories == old(subdirectories) + [sub]
      ensures sub.parent == this
      ensures id == old(id) && name == old(name)
      ensures sub.id == old(sub.id) && sub.name == old(sub.name)
      ensures sub != this ==> parent == old(parent) && sub.subdirectories == old(sub.subdirectories)
    {
      subdirectories := subdirectories + [sub];
      sub.parent := this;
    }

    /** removeSubdirectory: drops the first occurrence of sub from the list and clears its parent. */
    method RemoveSubdirectory(sub: Directory)
      modifies this, sub
      ensures subdirectories == RemoveFirst(old(subdirectories), sub)
      ensures sub.parent == null
      ensures id == old(id) && name == old(name)
      ensures sub.id == old(sub.id) && sub.name == old(sub.name)
      ensures sub != this ==> parent == old(parent) && sub.subdirectories == old(sub.subdirectories)
    {
      subdirectories := RemoveFirst(subdirectories, sub);
      sub.parent := null;
    }
  }

  /** List.remove(Object): the list without its first occurrence of x, or unchanged if x is absent. */
  function RemoveFirst(s: seq<Directory>, x: Directory): (r: seq<Directory>)
    ensures x !in s ==> r == s
    ensures x in s ==> |r| == |s| - 1
    ensures multiset(r) == multiset(s) - multiset{x}
    decreases |s|
  {
    if s == [] then []
    else
      assert s == [s[0]] + s[1..];
      if s[0] == x then s[1..] else [s[0]] + RemoveFirst(s[1..], x)
  }

  /** What RemoveFirst removes is the first occurrence: the elements before it are kept in place. */
  lemma {:induction false} RemoveFirstSplits(s: seq<Directory>, x: Directory) returns (i: nat)
    requires x in s
    ensures i < |s| && s[i] == x && x !in s[..i]
    ensures RemoveFirst(s, x) == s[..i] + s[i + 1..]
    decreases |s|
  {
    if s[0] == x {
      i := 0;
    } else {
      var j := RemoveFirstSplits(s[1..], x);
      i := j + 1;
      SplitAfterHead(s, i);
    }
  }

  /** Cutting element i out of s is keeping s[0] and cutting element i - 1 out of s[1..]. */
  lemma SplitAfterHead<T>(s: seq<T>, i: nat)
    requires 1 <= i < |s|
    ensures s[..i] == [s[0]] + s[1..][..i - 1]
    ensures [s[0]] + (s[1..][..i - 1] + s[1..][i..]) == s[..i] + s[i + 1..]
  {
  }

  /** Removing a subdirectory that was just added, and was not there before, restores the list. */
  lemma {:induction false} AddThenRemove(s: seq<Directory>, x: Directory)
    requires x !in s
    ensures RemoveFirst(s + [x], x) == s
    decreases |s|
  {
    if s != [] {
      assert s[0] != x && (s + [x])[0] == s[0];
      assert (s + [x])[1..] == s[1..] + [x];
      AddThenRemove(s[1..], x);
      assert s == [s[0]] + s[1..];
    }
  }

  /** addSubdirectory(c) then removeSubdirectory(c) leaves p's list as it was and c at root level. */
  method AddThenRemoveRestores(p: Directory, c: Directory)
    requires c !in p.subdirectories && c != p
    modifies p, c
    ensures p.subdirectories == old(p.subdirectories) && c.parent == null
    ensures p.parent == old(p.parent) && c.subdirectories == old(c.subdirectories)
  {
    p.AddSubdirectory(c);
    AddThenRemove(old(p.subdirectories), c);
    p.RemoveSubdirectory(c);
  }
}
