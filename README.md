# Directory tree service, modelled in Dafny

The service keeps a tree of named directories in a database table. Each row holds a
generated id, a name and an optional parent. A directory's subdirectories are never stored;
they are the rows whose parent is that directory. On top of the table the service:

- resolves a `/`-separated path, segment by segment from root level, giving up at the first
  segment it cannot find;
- creates a path like `mkdir -p`. It saves every missing segment under the previous one and
  throws `DirectoryAlreadyExistsException` when an existing segment has the same name as the
  last segment;
- moves a directory by giving it a new parent. The new parent is the target path's directory,
  or root level when the target is empty or does not resolve. There is no check for cycles
  or for name clashes;
- deletes a directory and, through the cascade on its subdirectories, its whole subtree;
- lists every directory;
- renders the tree as text. Root-level directories come first, sorted by
  `compareToIgnoreCase`, each followed by its own subdirectories sorted the same way. Every
  directory whose parent chain reaches root level gets one line, indented by two spaces per
  level.

Modules (one file each):

- Wrappers: Option and Result, plus the failures. A failure is the conflict with its message,
  or a null dereference.
- JavaStrings: `String.split("/")`, exactly as Java does it, and `compareToIgnoreCase`.
- Store: the table as `map<Id, Node>` with an id generator. It holds the repository queries,
  `save` and the cascading `delete`, inside class `Repository`. It also holds the
  specification functions and predicates:
  - `Lookup`, `ChildrenOf` and `Ancestor`;
  - `WellFormed` (every stored parent exists);
  - `SiblingsUnique` (no two directories with the same parent share a name);
  - `Acyclic` (every parent chain reaches root level);
  - `Grows` (rows are only ever added).
- Resolve, Create, Move, Delete: the specification of each service operation, as a function of
  the table, and the lemmas about it.
- Render: the stable case-insensitive sort and the listing. `NodeEntries` and `RootsEntries`
  give the listing as (directory, level) lines; `RenderForest` gives it as the string.
- Service: class `DirectoryTreeService`. Its methods follow the Java code's loops and calls,
  and each is proved to produce what the matching function above specifies. Rendering appends
  to a `StringBuilder` object, through recursion.
- Entity: the `Directory` object with its fields and with `addSubdirectory` and
  `removeSubdirectory`.
- Scenario: worked examples. Ordering "b", "A" and "c"; splitting `docs/`; creating `docs/reports/2024` in an empty table, then rendering it.

Modelling choices:

- Ids are natural numbers handed out in increasing order.
- The store returns a list of directories in increasing id order. Java's sort is stable, so
  names that compare equal stay in that order.
- A query that looks for a name under a parent returns the matching row with the smallest id.
  When sibling names are unique, that is the only match.
- `compareToIgnoreCase` compares characters after mapping ASCII upper-case letters to lower case.
- Java's `split` drops trailing empty strings. A path made only of slashes therefore splits into
  no segment at all, and the code then dereferences a null `current`
  (DirectoryTreeService.java lines 71 and 216). The model returns `Err(NullDereference)` there.

## Model

| member | source | states |
|---|---|---|
| JavaStrings.Fields | src/main/java/com/jussaw/directorytree/service/DirectoryTreeService.java:48 | the fields of a string between its slashes: at least one, none containing a slash, joined back with "/" they give the string |
| JavaStrings.DropTrailingEmpty | src/main/java/com/jussaw/directorytree/service/DirectoryTreeService.java:48 | a prefix of the fields that ends in a non-empty field (or is empty), everything dropped being empty fields |
| JavaStrings.Split | src/main/java/com/jussaw/directorytree/service/DirectoryTreeService.java:48 | `String.split("/")`: no part contains a slash, and the last part is non-empty unless the result is `[""]` |
| JavaStrings.SplitJoin | src/main/java/com/jussaw/directorytree/service/DirectoryTreeService.java:48 | splitting the join of slash-free parts (non-empty last part, or a single part) gives back exactly those parts |
| JavaStrings.SplitEmpty | src/main/java/com/jussaw/directorytree/service/DirectoryTreeService.java:48 | the split is empty exactly when the path is non-empty and made only of slashes |
| JavaStrings.FieldsAppendSlash | src/main/java/com/jussaw/directorytree/service/DirectoryTreeService.java:48 | a "/" at the end of a string adds exactly one empty field after its fields |
| JavaStrings.SplitTrailingSlash | src/main/java/com/jussaw/directorytree/service/DirectoryTreeService.java:48 | `split` drops trailing empty strings: a non-empty path with a "/" appended splits exactly as the path does |
| JavaStrings.FoldCase | src/main/java/com/jussaw/directorytree/service/DirectoryTreeService.java:156 | an ASCII upper-case letter maps to the corresponding lower-case letter (its code plus 32); every other character is kept |
| JavaStrings.CompareAntisymmetric | src/main/java/com/jussaw/directorytree/service/DirectoryTreeService.java:156 | `compareToIgnoreCase(b, a) == -compareToIgnoreCase(a, b)` |
| JavaStrings.NameLeTotal | src/main/java/com/jussaw/directorytree/service/DirectoryTreeService.java:156 | any two names are ordered one way or the other by the comparator |
| JavaStrings.NameLeTransitive | src/main/java/com/jussaw/directorytree/service/DirectoryTreeService.java:156 | the comparator's order is transitive, so sorting by it is well defined |
| JavaStrings.CompareToIgnoreCase | src/main/java/com/jussaw/directorytree/service/DirectoryTreeService.java:156 | `compareToIgnoreCase`: zero exactly when the names have the same length and agree character by character after case folding |
| JavaStrings.CompareFirstDifference | src/main/java/com/jussaw/directorytree/service/DirectoryTreeService.java:156 | which name comes first: after a common prefix equal up to case, the result is the difference of the folded characters at the first position where they differ, or the difference of the lengths when one name ends there |
| JavaStrings.NameLe | src/main/java/com/jussaw/directorytree/service/DirectoryTreeService.java:156 | the sort's "no later than" test on names; it holds when the first name is empty, and when the two names agree up to ASCII case |
| JavaStrings.Join | src/main/java/com/jussaw/directorytree/service/DirectoryTreeService.java:48 | the inverse of `split("/")` used by `SplitJoin`: the joined path starts with the first segment, followed by a slash when more segments follow |
| Store.FirstMatch | src/main/java/com/jussaw/directorytree/repository/DirectoryRepository.java:10-12 | a match found from `from` on is the smallest such id, and no smaller id at or after `from` matches |
| Store.Lookup | src/main/java/com/jussaw/directorytree/repository/DirectoryRepository.java:10-12 | the result has the given name and parent, and no stored directory with a smaller id does; None means no directory matches |
| Store.ScanChildren | src/main/java/com/jussaw/directorytree/model/Directory.java:24 | the ids from `from` on whose parent is `parent`, each once, in increasing order |
| Store.ChildrenOf | src/main/java/com/jussaw/directorytree/model/Directory.java:24-29 | the derived subdirectory list: exactly the stored directories whose parent is the given one, in increasing id order |
| Store.ScanAll | src/main/java/com/jussaw/directorytree/service/DirectoryTreeService.java:139 | the stored ids from `from` on, each once, in increasing order |
| Store.LookupFindsUnique | src/main/java/com/jussaw/directorytree/repository/DirectoryRepository.java:10-12 | with unique sibling names, the lookup returns the one directory of that name under that parent |
| Store.LookupStable | src/main/java/com/jussaw/directorytree/repository/DirectoryRepository.java:10-12 | a lookup that succeeded still gives the same answer after the table only grows |
| Store.LookupAfterInsert | src/main/java/com/jussaw/directorytree/service/DirectoryTreeService.java:59-62 | after a failed lookup and the save of that name under that parent, the lookup finds the new id |
| Store.Insert | src/main/java/com/jussaw/directorytree/service/DirectoryTreeService.java:59-62 | a save without id adds exactly one row, under the next generated id, and advances the generator |
| Store.InsertKeepsSiblingsUnique | src/main/java/com/jussaw/directorytree/service/DirectoryTreeService.java:53-62 | saving a name under a parent where the lookup found none keeps sibling names unique |
| Store.InsertPreserves | src/main/java/com/jussaw/directorytree/service/DirectoryTreeService.java:59-62 | saving a new directory under an existing parent keeps the table well formed, only grows it, and keeps it a forest |
| Store.RemoveSubtreeKeepsWellFormed | src/main/java/com/jussaw/directorytree/model/Directory.java:24 | after the cascading removal no remaining directory has a removed parent |
| Store.Repository.FindByNameAndParentIsNull | src/main/java/com/jussaw/directorytree/repository/DirectoryRepository.java:10 | the root-level directory of that name, or None when there is none |
| Store.Repository.FindByNameAndParent | src/main/java/com/jussaw/directorytree/repository/DirectoryRepository.java:12 | the subdirectory of that name under the given parent, or None when there is none |
| Store.Repository.FindByParentIsNull | src/main/java/com/jussaw/directorytree/repository/DirectoryRepository.java:14 | exactly the root-level directories, each once, in increasing id order |
| Store.Repository.Subdirectories | src/main/java/com/jussaw/directorytree/model/Directory.java:24-25 | exactly the directories whose parent is the given one, each once, in increasing id order |
| Store.Repository.FindAll | src/main/java/com/jussaw/directorytree/service/DirectoryTreeService.java:139 | exactly the stored directories, each once, in increasing id order |
| Store.Repository.constructor | src/main/java/com/jussaw/directorytree/repository/DirectoryRepository.java:9 | an empty table whose id generator starts at 0 |
| Store.Repository.Save | src/main/java/com/jussaw/directorytree/service/DirectoryTreeService.java:62 | without an id, or with an id that has no row, a new row under the next generated id; with the id of a stored row that row is overwritten; the id is returned and no other row changes |
| Store.Repository.Delete | src/main/java/com/jussaw/directorytree/model/Directory.java:24 | the table afterwards is the old one without the directory and its whole subtree; nothing else changes |
| Resolve.ResolveFrom | src/main/java/com/jussaw/directorytree/service/DirectoryTreeService.java:205-215 | no segments leave the start unchanged; a directory found is named like the last segment |
| Resolve.ResolvePath | src/main/java/com/jussaw/directorytree/service/DirectoryTreeService.java:200-222 | an error exactly when the split has no segment (null dereference); a directory found is stored |
| Resolve.ResolveAppend | src/main/java/com/jussaw/directorytree/service/DirectoryTreeService.java:205-215 | resolving `p + q` is resolving `p` and then `q` below what it found, and nothing once `p` misses |
| Resolve.LastStep | src/main/java/com/jussaw/directorytree/service/DirectoryTreeService.java:205-215 | a successful resolution is the lookup of the last segment below the directory the other segments reach |
| Resolve.ResolveLast | src/main/java/com/jussaw/directorytree/service/DirectoryTreeService.java:205-215 | a path of two or more segments resolves to the lookup of its last segment below where the others lead, and to nothing when they lead nowhere |
| Resolve.ResolveSound | src/main/java/com/jussaw/directorytree/service/DirectoryTreeService.java:205-215 | a directory found is the end of a chain from a root-level directory whose names are the segments, each the parent of the next |
| Resolve.ResolveComplete | src/main/java/com/jussaw/directorytree/service/DirectoryTreeService.java:205-215 | with unique sibling names, every such chain is what the resolution finds |
| Resolve.ChainFromRootDistinct | src/main/java/com/jussaw/directorytree/service/DirectoryTreeService.java:205-215 | a chain from root level never visits a directory twice |
| Create.CreateWalk | src/main/java/com/jussaw/directorytree/service/DirectoryTreeService.java:52-69 | the walk ends on a directory whenever there was a segment |
| Create.WalkStep | src/main/java/com/jussaw/directorytree/service/DirectoryTreeService.java:53-68 | one turn of the loop: a missing segment is saved under the current directory and the walk goes on below it; a segment found ends the walk with the conflict when it is named like the last one, otherwise the walk goes on below it |
| Create.CreatePath | src/main/java/com/jussaw/directorytree/service/DirectoryTreeService.java:45-77 | createDirectoryFromPath: the null dereference exactly for a path that splits into no segment, with the table unchanged; every other failure is the conflict whose message is "Directory already exists with path: " followed by the path |
| Create.WalkGrows | src/main/java/com/jussaw/directorytree/service/DirectoryTreeService.java:52-69 | the walk only adds rows under fresh ids, keeps the table well formed and keeps it a forest |
| Create.WalkResolves | src/main/java/com/jussaw/directorytree/service/DirectoryTreeService.java:52-69 | after a walk without conflict the segments resolve to the directory reached |
| Create.FreshWalkNoConflict | src/main/java/com/jussaw/directorytree/service/DirectoryTreeService.java:59-66 | below a directory without subdirectories (one just created) no conflict can arise |
| Create.WalkConflictKeepsTree | src/main/java/com/jussaw/directorytree/service/DirectoryTreeService.java:59-66 | a walk that ends in the conflict has not changed the table |
| Create.WalkConflictIff | src/main/java/com/jussaw/directorytree/service/DirectoryTreeService.java:63-66 | the walk conflicts exactly when some segment named like the last one already resolves |
| Create.WalkKeepsSiblingsUnique | src/main/java/com/jussaw/directorytree/service/DirectoryTreeService.java:53-62 | the walk keeps sibling names unique |
| Create.WalkChain | src/main/java/com/jussaw/directorytree/service/DirectoryTreeService.java:52-69 | the walk leaves a chain of directories named by the segments, each created one or an existing one |
| Create.CreateThenResolve | src/main/java/com/jussaw/directorytree/service/DirectoryTreeService.java:52-72 | after a successful create the path resolves to the returned directory, and the old rows are kept |
| Create.CreateBuildsChain | src/main/java/com/jussaw/directorytree/service/DirectoryTreeService.java:52-72 | after a successful create the path names a chain from root level ending at the result; new rows lie on that chain and old rows are unchanged |
| Create.CreateKeepsSiblingsUnique | src/main/java/com/jussaw/directorytree/service/DirectoryTreeService.java:53-62 | create never introduces two siblings with one name |
| Create.CreatePreservesWellFormed | src/main/java/com/jussaw/directorytree/service/DirectoryTreeService.java:59-62 | create keeps the table well formed and a forest, and only grows it |
| Create.CreateConflictIff | src/main/java/com/jussaw/directorytree/service/DirectoryTreeService.java:63-66 | the result is the conflict with message "Directory already exists with path: " + path exactly when some existing segment on the path is named like the last one |
| Create.CreateFailureKeepsTree | src/main/java/com/jussaw/directorytree/service/DirectoryTreeService.java:59-66 | a failed create leaves the table exactly as it was |
| Create.CreateExistingConflicts | src/main/java/com/jussaw/directorytree/service/DirectoryTreeService.java:52-66 | creating a path that already resolves fails with the conflict and changes nothing |
| Create.CreateTwice | src/main/java/com/jussaw/directorytree/service/DirectoryTreeService.java:52-66 | creating the same path a second time fails with the conflict and adds no row |
| Move.Reparent | src/main/java/com/jussaw/directorytree/service/DirectoryTreeService.java:95 | changing one parent keeps the set of ids and the id generator |
| Move.MovePath | src/main/java/com/jussaw/directorytree/service/DirectoryTreeService.java:86-106 | moveDirectory: fails exactly when the source, or a non-empty target, splits into no segment; a failure or a source that does not resolve leaves the table unchanged; no row is added or removed and the id generator is untouched; a moved directory is a stored one |
| Move.TargetParent | src/main/java/com/jussaw/directorytree/service/DirectoryTreeService.java:90-95 | the new parent: root level for an empty target, otherwise a stored directory or root level |
| Move.MoveMissingSource | src/main/java/com/jussaw/directorytree/service/DirectoryTreeService.java:93-101 | a source that does not resolve gives an empty result and an unchanged table |
| Move.MoveOnlyReparents | src/main/java/com/jussaw/directorytree/service/DirectoryTreeService.java:89-98 | a resolved source gets the target (or root) as parent and is returned; its name and every other row are unchanged |
| Move.MoveUnresolvedTargetGoesToRoot | src/main/java/com/jussaw/directorytree/service/DirectoryTreeService.java:90-95 | a non-empty target that does not resolve moves the source to root level |
| Move.MoveKeepsWellFormed | src/main/java/com/jussaw/directorytree/service/DirectoryTreeService.java:89-98 | moving keeps every parent reference pointing at a stored directory |
| Move.MoveKeepsSubtree | src/main/java/com/jussaw/directorytree/service/DirectoryTreeService.java:95 | everything below the moved directory is still below it |
| Move.MoveSiblingsUniqueIff | src/main/java/com/jussaw/directorytree/service/DirectoryTreeService.java:95-98 | sibling names stay unique exactly when the target has no other subdirectory of the source's name |
| Move.MoveOutsideKeepsAcyclic | src/main/java/com/jussaw/directorytree/service/DirectoryTreeService.java:95 | moving to root or under a directory outside the source's subtree keeps the table a forest |
| Move.MoveInsideMakesCycle | src/main/java/com/jussaw/directorytree/service/DirectoryTreeService.java:95 | moving a directory under one of its own descendants cuts it off from root level |
| Move.MoveAcyclicIff | src/main/java/com/jussaw/directorytree/service/DirectoryTreeService.java:95 | the table stays a forest exactly when the target is root or lies outside the source's subtree |
| Move.MoveToRoot | src/main/java/com/jussaw/directorytree/service/DirectoryTreeService.java:89-98 | with an empty target the source becomes resolvable by its bare name, and its old path of two or more segments no longer resolves |
| Move.RootNameFinds | src/main/java/com/jussaw/directorytree/service/DirectoryTreeService.java:95-98 | a directory moved to root level, with no other root-level directory of its name, resolves by its bare name |
| Move.OldPathMisses | src/main/java/com/jussaw/directorytree/service/DirectoryTreeService.java:95-98 | once moved to root level, a directory is no longer reached by its old path of two or more segments |
| Move.MovedAwayMisses | src/main/java/com/jussaw/directorytree/service/DirectoryTreeService.java:95 | after the move, the old parent has no subdirectory of the moved directory's name |
| Delete.DeletePath | src/main/java/com/jussaw/directorytree/service/DirectoryTreeService.java:114-129 | deleteDirectory: fails exactly when the path splits into no segment; unless it returns true the table is unchanged; rows are only removed and the id generator is untouched |
| Delete.DeleteMissing | src/main/java/com/jussaw/directorytree/service/DirectoryTreeService.java:117-124 | a path that does not resolve gives false and an unchanged table |
| Delete.DeleteRemovesSubtree | src/main/java/com/jussaw/directorytree/service/DirectoryTreeService.java:117-121 | a resolved path gives true; exactly the directory and its descendants are removed and the other rows are unchanged |
| Delete.DeleteKeepsWellFormed | src/main/java/com/jussaw/directorytree/model/Directory.java:24 | no remaining directory has a deleted parent |
| Delete.DeleteKeepsSiblingsUnique | src/main/java/com/jussaw/directorytree/service/DirectoryTreeService.java:117-121 | deleting keeps sibling names unique |
| Delete.AncestorAfterRemoval | src/main/java/com/jussaw/directorytree/model/Directory.java:24 | the parent chains of the directories that remain are those they had before |
| Delete.DeleteKeepsAcyclic | src/main/java/com/jussaw/directorytree/service/DirectoryTreeService.java:117-121 | deleting keeps the table a forest |
| Render.InsertByName | src/main/java/com/jussaw/directorytree/service/DirectoryTreeService.java:155-157 | the insertion is a permutation of the list plus the new element |
| Render.SortByName | src/main/java/com/jussaw/directorytree/service/DirectoryTreeService.java:155-157 | the sort is a permutation of its input |
| Render.InsertKeepsOrder | src/main/java/com/jussaw/directorytree/service/DirectoryTreeService.java:155-157 | inserting an id smaller than all others into a sorted list keeps it sorted, ties in id order |
| Render.SortOrder | src/main/java/com/jussaw/directorytree/service/DirectoryTreeService.java:155-157 | sorting a list in id order yields comparator order with equal names in id order (a stable sort) |
| Render.SortedChildren | src/main/java/com/jussaw/directorytree/service/DirectoryTreeService.java:185-187 | exactly the subdirectories of the directory |
| Render.SortedRoots | src/main/java/com/jussaw/directorytree/service/DirectoryTreeService.java:154-157 | exactly the root-level directories |
| Render.SortedChildrenOrder | src/main/java/com/jussaw/directorytree/service/DirectoryTreeService.java:185-187 | the subdirectories are in comparator order, ties in id order, a permutation of the store's list |
| Render.SortedRootsOrder | src/main/java/com/jussaw/directorytree/service/DirectoryTreeService.java:154-157 | the root-level directories are in comparator order, ties in id order, a permutation of the store's list |
| Render.Indent | src/main/java/com/jussaw/directorytree/service/DirectoryTreeService.java:180-182 | two spaces per level and nothing else |
| Render.LineShape | src/main/java/com/jussaw/directorytree/service/DirectoryTreeService.java:180-183 | a line is two spaces per level, then the directory's name, then one line break |
| Render.TextShape | src/main/java/com/jussaw/directorytree/service/DirectoryTreeService.java:180-183 | the text of a list of lines has at least one character per line, is empty exactly when there are no lines, and ends with a line break |
| Render.TextAppend | src/main/java/com/jussaw/directorytree/service/DirectoryTreeService.java:159-163 | the text of two lists of lines is the concatenation of their texts |
| Render.ExtendRootPath | src/main/java/com/jussaw/directorytree/service/DirectoryTreeService.java:189-191 | a subdirectory is not on the chain leading to its parent, so the recursion never revisits a directory |
| Render.RenderEmpty | src/main/java/com/jussaw/directorytree/service/DirectoryTreeService.java:151-165 | an empty table renders as the empty string |
| Render.RenderForestEmptyIff | src/main/java/com/jussaw/directorytree/service/DirectoryTreeService.java:151-165 | the listing is the empty string exactly when no directory is at root level, and otherwise ends with a line break |
| Render.NodeEntries | src/main/java/com/jussaw/directorytree/service/DirectoryTreeService.java:179-191 | formatDirectory as lines: every line names a stored directory and the first is the directory itself at its level |
| Render.ChildrenEntries | src/main/java/com/jussaw/directorytree/service/DirectoryTreeService.java:189-191 | the loop over sorted subdirectories as lines: every line names a stored directory |
| Render.RootsEntries | src/main/java/com/jussaw/directorytree/service/DirectoryTreeService.java:160-162 | the loop over sorted root-level directories as lines: every line names a stored directory |
| Render.ForestEntries | src/main/java/com/jussaw/directorytree/service/DirectoryTreeService.java:151-165 | the whole listing as lines: every line names a stored directory |
| Render.NodeEntriesSound | src/main/java/com/jussaw/directorytree/service/DirectoryTreeService.java:179-191 | every line of a directory's listing is one of its descendants, at its own level plus its depth below it |
| Render.NodeEntriesDistinct | src/main/java/com/jussaw/directorytree/service/DirectoryTreeService.java:179-191 | no directory appears twice in a directory's listing |
| Render.NodeEntriesComplete | src/main/java/com/jussaw/directorytree/service/DirectoryTreeService.java:179-191 | every descendant of a directory appears in its listing |
| Render.RootsEntriesSound | src/main/java/com/jussaw/directorytree/service/DirectoryTreeService.java:160-162 | every line under the roots is a directory below one of them, at its depth |
| Render.RootsEntriesDistinct | src/main/java/com/jussaw/directorytree/service/DirectoryTreeService.java:160-162 | no directory appears twice in the whole listing |
| Render.RootsEntriesComplete | src/main/java/com/jussaw/directorytree/service/DirectoryTreeService.java:160-162 | every directory below a listed root appears |
| Render.ListingLines | src/main/java/com/jussaw/directorytree/service/DirectoryTreeService.java:154-191 | each directory whose parent chain reaches root level has exactly one line, indented by its depth; no other directory has one |
| Render.ListingLength | src/main/java/com/jussaw/directorytree/service/DirectoryTreeService.java:154-191 | in a forest the listing has exactly one line per stored directory |
| Render.NodeText | src/main/java/com/jussaw/directorytree/service/DirectoryTreeService.java:179-191 | a directory's text is its indented name and a line break, then the texts of its sorted subdirectories one level deeper |
| Render.RootsStep | src/main/java/com/jussaw/directorytree/service/DirectoryTreeService.java:160-162 | formatting one more root-level directory appends its text |
| Render.ChildrenStep | src/main/java/com/jussaw/directorytree/service/DirectoryTreeService.java:189-191 | formatting one more subdirectory appends its text |
| Service.StringBuilder.constructor | src/main/java/com/jussaw/directorytree/service/DirectoryTreeService.java:159 | an empty buffer |
| Service.StringBuilder.Append | src/main/java/com/jussaw/directorytree/service/DirectoryTreeService.java:181-183 | the text grows by exactly the appended string |
| Service.DirectoryTreeService.constructor | src/main/java/com/jussaw/directorytree/service/DirectoryTreeService.java:20 | the service works on the given repository |
| Service.DirectoryTreeService.CreateDirectory | src/main/java/com/jussaw/directorytree/service/DirectoryTreeService.java:28-36 | saves the directory: a new row under a fresh id when it has no id or an id without a row, otherwise an update of the row with its id |
| Service.DirectoryTreeService.CreateDirectoryFromPath | src/main/java/com/jussaw/directorytree/service/DirectoryTreeService.java:45-77 | new table and result are those of `CreatePath` on the old table, whose properties are the Create lemmas |
| Service.DirectoryTreeService.FindDirectoryByPath | src/main/java/com/jussaw/directorytree/service/DirectoryTreeService.java:200-222 | the result is `ResolvePath` of the path, and nothing changes |
| Service.DirectoryTreeService.MoveDirectory | src/main/java/com/jussaw/directorytree/service/DirectoryTreeService.java:86-106 | new table and result are those of `MovePath`, whose properties are the Move lemmas |
| Service.DirectoryTreeService.DeleteDirectory | src/main/java/com/jussaw/directorytree/service/DirectoryTreeService.java:114-129 | new table and result are those of `DeletePath`, whose properties are the Delete lemmas |
| Service.DirectoryTreeService.ListDirectories | src/main/java/com/jussaw/directorytree/service/DirectoryTreeService.java:136-144 | every stored directory exactly once, in increasing id order |
| Service.DirectoryTreeService.FormatDirectoryStructure | src/main/java/com/jussaw/directorytree/service/DirectoryTreeService.java:151-170 | the text is `RenderForest` of the table, whose lines are described by `ListingLines` |
| Service.DirectoryTreeService.AppendLine | src/main/java/com/jussaw/directorytree/service/DirectoryTreeService.java:180-183 | the buffer grows by two spaces per level, the name and a line break |
| Service.DirectoryTreeService.FormatDirectory | src/main/java/com/jussaw/directorytree/service/DirectoryTreeService.java:179-192 | the buffer grows by the text of the directory's listing at that level |
| Service.DirectoryTreeService.FormatSubdirectories | src/main/java/com/jussaw/directorytree/service/DirectoryTreeService.java:189-191 | the buffer grows by the texts of the given subdirectories' listings, in order |
| Entity.Directory.constructor | src/main/java/com/jussaw/directorytree/model/Directory.java:36-38 | the given name, no id, no subdirectories and no parent |
| Entity.Directory.AddSubdirectory | src/main/java/com/jussaw/directorytree/model/Directory.java:45-48 | the child is appended at the end of the list and gets this directory as parent; names and ids are unchanged |
| Entity.Directory.RemoveSubdirectory | src/main/java/com/jussaw/directorytree/model/Directory.java:55-58 | the first occurrence of the child leaves the list and its parent becomes null; names and ids are unchanged |
| Entity.RemoveFirst | src/main/java/com/jussaw/directorytree/model/Directory.java:56 | `List.remove`: unchanged when absent, otherwise one element shorter, with the multiset less that element |
| Entity.RemoveFirstSplits | src/main/java/com/jussaw/directorytree/model/Directory.java:56 | what is removed is the first occurrence; the elements before and after it keep their order |
| Entity.AddThenRemove | src/main/java/com/jussaw/directorytree/model/Directory.java:45-58 | removing an element just appended, absent before, restores the list |
| Entity.AddThenRemoveRestores | src/main/java/com/jussaw/directorytree/model/Directory.java:45-58 | addSubdirectory followed by removeSubdirectory restores the list and leaves the child at root level |
| Scenario.MixedCaseOrder | src/main/java/com/jussaw/directorytree/service/DirectoryTreeService.java:155-157 | "b", "A" and "c" are ordered A, b, c by the comparator, each strictly before the next |
| Scenario.TrailingSlashDropped | src/main/java/com/jussaw/directorytree/service/DirectoryTreeService.java:48 | `"docs/".split("/")` is `["docs"]` |
| Scenario.CreateNested | src/main/java/com/jussaw/directorytree/service/DirectoryTreeService.java:45-77 | creating "docs/reports/2024" in an empty table saves docs, reports and 2024 under ids 0, 1 and 2, each under the one before, and returns id 2 |
| Scenario.RenderNested | src/main/java/com/jussaw/directorytree/service/DirectoryTreeService.java:151-191 | that table renders as "docs\n  reports\n    2024\n" |

## Left out

- The HTTP controller (DirectoryTreeController.java) is left out. It only maps results and exceptions to status codes.
- Logging and the `try`/`catch` blocks are left out. The blocks only log and rethrow, so an exception becomes an `Err` result.
- JPA mechanics are left out: transactions, lazy loading, the proxying of entities and the SQL the queries turn into.
  Identity generation is a counter. The store's list order is taken to be increasing id order.
- Store.Lookup: returns the smallest matching id when several siblings share a name.
  Spring Data would throw `IncorrectResultSizeDataAccessException` there.
  Create never produces such duplicates (`CreateKeepsSiblingsUnique`), but an unchecked move can.
- Store.Repository.Save: requires every parent it stores to be a stored directory. JPA rejects a save whose parent is missing or transient, and that failure is not modelled. Every call in the service meets the requirement.
- Service.DirectoryTreeService.CreateDirectory: requires the directory's parent, if any, to be stored, as `Save` does; a parent that is itself new, which JPA would reject, is not modelled.
  The directory's in-memory `subdirectories` list is not part of the row, so the `cascade = ALL` save of directories attached only through that list is not modelled.
  For the same reason `orphanRemoval = true` (Directory.java line 24) is not modelled: merging a directory whose id has a row but whose in-memory list lacks some of the stored children would delete those children and their subtrees, whereas the model changes only the saved row.
  A directory made with the no-argument constructor (Directory.java line 15) can have a null name, which `createDirectory` saves and the comparator at DirectoryTreeService.java line 156 would dereference; the model's names are never null. In the code, `createDirectory` has no caller in the service or the controller.
- DirectoryAlreadyExistsException.java is only the failure `AlreadyExists(message)`. The message is built as the code builds it.
- Lombok's generated `equals`, `hashCode` and accessors are left out.
  `RemoveFirst` compares directories by object identity, whereas Java's `List.remove` calls the structural `equals`.
- JavaStrings.CompareToIgnoreCase: case folding covers ASCII letters only. Java also folds the rest of Unicode.
  A Dafny `char` is a Unicode scalar value, whereas Java compares UTF-16 code units, so names with characters outside the Basic Multilingual Plane (surrogate pairs in Java) may order differently.
- Concurrent requests are left out. The code has no concurrency of its own.
- Entity.Directory: the object's in-memory `subdirectories` list is not tied to the `Store` table.
  In the table, subdirectories are derived from parent references (`Store.ChildrenOf`), which is what `mappedBy = "parent"` means.
  The table is what every service operation reads and writes.
- Service.DirectoryTreeService.MoveDirectory: the warning at DirectoryTreeService.java line 100, "Cannot move {} - source or target does not exist", and the same message in DirectoryTreeController.java lines 48-50, suggest that a missing target fails the move.
  The code does otherwise, and the model follows the code (DirectoryTreeService.java lines 90-95): a non-empty target that does not resolve gives `Optional.empty()`, so `setParent(null)` moves the source to root level.
- Service.DirectoryTreeService.FormatDirectory: the indentation loop and name line are the method `AppendLine`, and the loop over subdirectories is the method `FormatSubdirectories`. The ghost parameter `path` (the chain of directories from root level down to the one being formatted) is the termination measure Dafny needs: each call goes one directory further along a chain that never repeats.
  The Java recursion is only entered from root-level directories (DirectoryTreeService.java lines 160-162), so it never meets a parent cycle either; directories on a cycle are not listed by the code or the model.
- Deep trees: `formatDirectory` recurses once per level and the delete cascade walks the subtree recursively, so a deep enough tree makes the JVM throw `StackOverflowError`. The model has unbounded recursion and does not model that failure.
