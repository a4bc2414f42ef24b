/** Path resolution: findDirectoryByPath as a function of the table. */
module Resolve {
  import opened Wrappers
  import opened JavaStrings
  import opened Store

  /**
    The walk of findDirectoryByPath below `at` (None: root level): each segment is looked up
    under the directory reached so far, and the walk gives up at the first segment not found.
  */
  function ResolveFrom(t: Tree, at: Option<Id>, parts: seq<string>): (r: Option<Id>)
    ensures parts == [] ==> r == at
    ensures parts != [] && r.Some? ==> r.value in t.nodes && t.nodes[r.value].name == parts[|parts| - 1]
    decreases |parts|
  {
    if parts == [] then at
    else match Lookup(t, at, parts[0])
      case None => None
      case Some(c) => ResolveFrom(t, Some(c), parts[1..])
  }

  /**
    findDirectoryByPath: a path made only of "/" splits into no segments, and the code then
    dereferences its null `current`.
  */
  function ResolvePath(t: Tree, path: string): (r: Result<Option<Id>>)
    ensures r.Err? <==> Split(path) == []
    ensures r.Ok? && r.value.Some? ==> r.value.value in t.nodes
  {
    var parts := Split(path);
    if parts == [] then Err(NullDereference) else Ok(ResolveFrom(t, None, parts))
  }

  /** chain lists directories below `at` named by `parts`, each the parent of the next. */
  ghost predicate IsChain(t: Tree, at: Option<Id>, chain: seq<Id>, parts: seq<string>) {
    && |chain| == |parts|
    && (forall i :: 0 <= i < |chain| ==> chain[i] in t.nodes && t.nodes[chain[i]].name == parts[i])
    && (chain != [] ==> t.nodes[chain[0]].parent == at)
    && (forall i :: 1 <= i < |chain| ==> t.nodes[chain[i]].parent == Some(chain[i - 1]))
  }

  /** Resolving p + q is resolving p and then q from where p ended; a miss in p is final. */
  lemma {:induction false} ResolveAppend(t: Tree, at: Option<Id>, p: seq<string>, q: seq<string>)
    requires p != []
    ensures ResolveFrom(t, at, p + q) == match ResolveFrom(t, at, p) {
      case None => None
      case Some(y) => ResolveFrom(t, Some(y), q)
    }
    decreases |p|
  {
    assert (p + q)[0] == p[0] && (p + q)[1..] == p[1..] + q;
    match Lookup(t, at, p[0]) {
      case None =>
      case Some(c) =>
        if |p| > 1 {
          ResolveAppend(t, Some(c), p[1..], q);
        }
    }
  }

  /** A path of two or more segments resolves by its last segment below where the others lead. */
  lemma ResolveLast(t: Tree, at: Option<Id>, parts: seq<string>)
    requires |parts| >= 2
    ensures ResolveFrom(t, at, parts) == match ResolveFrom(t, at, parts[..|parts| - 1]) {
      case None => None
      case Some(y) => Lookup(t, Some(y), parts[|parts| - 1])
    }
  {
    var n := |parts|;
    assert parts == parts[..n - 1] + [parts[n - 1]];
    ResolveAppend(t, at, parts[..n - 1], [parts[n - 1]]);
  }

  /** The directory a path resolves to is named by its last segment and sits under the prefix's directory. */
  lemma LastStep(t: Tree, at: Option<Id>, parts: seq<string>)
    requires |parts| >= 2
    requires ResolveFrom(t, at, parts).Some?
    ensures var prefix := ResolveFrom(t, at, parts[..|parts| - 1]);
      && prefix.Some?
      && ResolveFrom(t, at, parts) == Lookup(t, prefix, parts[|parts| - 1])
  {
    var n := |parts|;
    assert parts == parts[..n - 1] + [parts[n - 1]];
    ResolveAppend(t, at, parts[..n - 1], [parts[n - 1]]);
  }

  /** Whatever a path resolves to is reached along a chain of directories named by its segments. */
  lemma {:induction false} ResolveSound(t: Tree, at: Option<Id>, parts: seq<string>) returns (chain: seq<Id>)
    requires parts != []
    requires ResolveFrom(t, at, parts).Some?
    ensures IsChain(t, at, chain, parts)
    ensures chain[|chain| - 1] == ResolveFrom(t, at, parts).value
    decreases |parts|
  {
    var c := Lookup(t, at, parts[0]).value;
    if |parts| == 1 {
      chain := [c];
    } else {
      var rest := ResolveSound(t, Some(c), parts[1..]);
      chain := [c] + rest;
      forall i | 0 <= i < |chain|
        ensures chain[i] in t.nodes && t.nodes[chain[i]].name == parts[i]
        ensures i > 0 ==> t.nodes[chain[i]].parent == Some(chain[i - 1])
      {
        if i > 0 {
          assert chain[i] == rest[i - 1] && parts[i] == parts[1..][i - 1];
          if i > 1 {
            assert chain[i - 1] == rest[i - 2];
          }
        }
      }
    }
  }

  /** A directory named by the first segment, followed by a chain below it for the other segments, is a chain. */
  lemma ChainCons(t: Tree, at: Option<Id>, c: Id, rest: seq<Id>, parts: seq<string>)
    requires parts != []
    requires c in t.nodes && t.nodes[c] == Node(parts[0], at)
    requires IsChain(t, Some(c), rest, parts[1..])
    ensures IsChain(t, at, [c] + rest, parts)
  {
    var chain := [c] + rest;
    forall i | 1 <= i < |chain|
      ensures chain[i] in t.nodes && t.nodes[chain[i]].name == parts[i]
      ensures t.nodes[chain[i]].parent == Some(chain[i - 1])
    {
      assert chain[i] == rest[i - 1] && parts[i] == parts[1..][i - 1];
      if i > 1 {
        assert chain[i - 1] == rest[i - 2];
      }
    }
  }

  /** With unique sibling names, every chain named by the segments is the one resolution follows. */
  lemma {:induction false} ResolveComplete(t: Tree, at: Option<Id>, chain: seq<Id>, parts: seq<string>)
    requires WellFormed(t) && SiblingsUnique(t)
    requires parts != [] && IsChain(t, at, chain, parts)
    ensures ResolveFrom(t, at, parts) == Some(chain[|chain| - 1])
    decreases |parts|
  {
    assert t.nodes[chain[0]].name == parts[0] && t.nodes[chain[0]].parent == at;
    LookupFindsUnique(t, at, parts[0], chain[0]);
    if |parts| > 1 {
      var rest := chain[1..];
      assert forall i :: 0 <= i < |rest| ==> rest[i] == chain[i + 1];
      ResolveComplete(t, Some(chain[0]), rest, parts[1..]);
    }
  }

  /** A chain that starts at root level never visits a directory twice. */
  lemma ChainFromRootDistinct(t: Tree, chain: seq<Id>, parts: seq<string>)
    requires IsChain(t, None, chain, parts)
    ensures forall i, j :: 0 <= i < j < |chain| ==> chain[i] != chain[j]
  {
    forall i, j | 0 <= i < j < |chain|
      ensures chain[i] != chain[j]
    {
      NoRepeat(t, chain, parts, i, j);
    }
  }

  lemma {:induction false} NoRepeat(t: Tree, chain: seq<Id>, parts: seq<string>, i: nat, j: nat)
    requires IsChain(t, None, chain, parts)
    requires i < j < |chain|
    ensures chain[i] != chain[j]
    decreases i
  {
    assert t.nodes[chain[j]].parent == Some(chain[j - 1]);
    if i > 0 {
      assert t.nodes[chain[i]].parent == Some(chain[i - 1]);
      NoRepeat(t, chain, parts, i - 1, j - 1);
    } else {
      assert t.nodes[chain[0]].parent == None;
    }
  }
}
