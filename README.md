# An in-memory file system simulator, modelled in Dafny

The simulator keeps a tree of directories and files in memory, hanging from a
root directory called `/`. A `FileSystemManager` holds the root and the
current directory. It offers these operations:

- `mkdir` and `createFile` add an entry;
- `rm` removes one and `mv` moves or renames one;
- `cd` changes the current directory, `pwd` prints it and `cat` prints a file;
- `find` lists the absolute paths of every node with a given name.

Every directory keeps an ordered list of entries with unique names. Every
file keeps its text in `MyStringBuilder`, a growable character buffer.

The project has six modules:

- `Wrappers` (`wrappers.dfy`): `Option`, `Result` and `Outcome`. These are the
  values the operations return instead of printing an error message.
- `Util` (`util.dfy`): `MyStringBuilder` as a class over a `char` array and a
  count, with `Contents()`, the first `count` characters, as its abstract
  state. The pure functions `Inserted`, `Removed` and `Grown` state what
  insert, delete and capacity growth do to the contents.
- `Paths` (`paths.dfy`): the string side of paths. This covers splitting at
  `/` (both the plain split and Java's `String.split`, which drops trailing
  empty pieces), the last `/`, the base name, and joining names into an
  absolute path.
- `Nodes` (`nodes.dfy`): one class `Node` for both directories and files.
  Its kind and `createdAt` are fixed at construction (`const` fields, as
  Java has no setter for either), and a file is exactly a node with a
  buffer. The class has the setters, the directory operations `addChild`,
  `removeChild`, `findChild` and `isEmpty`, the file operations, and
  `getPath`.
- `Namespace` (`namespace.dfy`): `Tree`, a value that describes the shape
  of the heap. For each node it records the name, the parent and the ordered
  entries, plus a depth for each node.
  - `Valid()` states the invariants the simulator relies on:
    - every entry points back to its directory;
    - sibling names are unique;
    - only directories have entries;
    - following parents always reaches the root, which is its own parent.
  - Path resolution, the parent directory of a path and `find` are functions
    on this value.
  - `Added`, `Unlinked`, `Relinked` and `Moved` describe `mkdir`/`createFile`,
    `rm` and `mv`, and are proved to keep `Valid()`.
- `FileSystem` (`file_system.dfy`): the `FileSystemManager` class. It has
  the real fields `root` and `currentDirectory`, a ghost `tree` that mirrors
  the heap, and a ghost `Repr` footprint. Each operation is a method proved
  against the `Tree` functions. The class invariant `Valid()` ties the heap
  fields to `tree` and keeps every buffer valid.

The root is its own parent, as the manager's constructor makes it. So `..`
at the root stays at the root, and `cd ..` there succeeds. Timestamps come
from a `now: int` parameter instead of the system clock. Every operation
checks all its error conditions before it changes anything. The model states
each failure as the first check that fails, with the tree left unchanged.

## Model

| member | source | states |
|---|---|---|
| Util.OrNull | src/br/edu/fs/simulator/util/MyStringBuilder.java:49 | a null string is appended as the four characters `null`; any other string as itself |
| Util.Inserted | src/br/edu/fs/simulator/util/MyStringBuilder.java:128-139 | inserting `t` at `offset` gives the prefix before `offset`, then `t`, then the rest, and the length grows by the length of `t` |
| Util.Removed | src/br/edu/fs/simulator/util/MyStringBuilder.java:115-126 | deleting `[start, end)` keeps the prefix before `start` followed by the suffix from `end`, and the length shrinks by `end - start` |
| Util.RemovedUndoesInserted | src/br/edu/fs/simulator/util/MyStringBuilder.java:115-139 | deleting the range just inserted gives back the original text |
| Util.RemovedOneShiftsLeft | src/br/edu/fs/simulator/util/MyStringBuilder.java:106-113 | deleting one character keeps the characters before it and shifts every later one left by one place |
| Util.Grown | src/br/edu/fs/simulator/util/MyStringBuilder.java:30-34 | the new capacity is the larger of `2*old+2` and the requested minimum |
| Util.ArrayCopy | src/br/edu/fs/simulator/util/MyStringBuilder.java:40 | copying `len` characters overwrites exactly that stretch of the destination |
| Util.GetChars | src/br/edu/fs/simulator/util/MyStringBuilder.java:52 | a string's characters are written at `dstBegin` and nothing else changes |
| Util.MyStringBuilder.constructor | src/br/edu/fs/simulator/util/MyStringBuilder.java:8-11 | an empty buffer of capacity 16 |
| Util.MyStringBuilder.WithCapacity | src/br/edu/fs/simulator/util/MyStringBuilder.java:13-16 | an empty buffer of the requested capacity |
| Util.MyStringBuilder.FromString | src/br/edu/fs/simulator/util/MyStringBuilder.java:18-22 | a buffer holding `str`, with capacity 16 more than the length of `str` |
| Util.MyStringBuilder.EnsureCapacity | src/br/edu/fs/simulator/util/MyStringBuilder.java:24-28 | afterwards the capacity is at least the minimum and the contents are unchanged; the array is replaced only when it was too small |
| Util.MyStringBuilder.ExpandCapacity | src/br/edu/fs/simulator/util/MyStringBuilder.java:30-42 | a fresh array of capacity `max(2*old+2, minimum)` holding the same contents |
| Util.MyStringBuilder.Length | src/br/edu/fs/simulator/util/MyStringBuilder.java:44-46 | the length of the contents |
| Util.MyStringBuilder.Append | src/br/edu/fs/simulator/util/MyStringBuilder.java:48-55 | the contents become the old contents followed by the string, or by `null` for a null string |
| Util.MyStringBuilder.AppendChar | src/br/edu/fs/simulator/util/MyStringBuilder.java:61-65 | the contents gain the character at the end |
| Util.MyStringBuilder.AppendChars | src/br/edu/fs/simulator/util/MyStringBuilder.java:67-73 | the contents gain the array's characters at the end |
| Util.MyStringBuilder.ToString | src/br/edu/fs/simulator/util/MyStringBuilder.java:95-97 | the contents, that is, the first `count` characters of the array |
| Util.MyStringBuilder.CharAt | src/br/edu/fs/simulator/util/MyStringBuilder.java:99-104 | character `index` when `0 <= index < length`, an index error otherwise |
| Util.MyStringBuilder.DeleteCharAt | src/br/edu/fs/simulator/util/MyStringBuilder.java:106-113 | in range, exactly character `index` is removed; out of range, an index error and the contents unchanged |
| Util.MyStringBuilder.Delete | src/br/edu/fs/simulator/util/MyStringBuilder.java:115-126 | `end` is clamped to the length; a negative `start` or `start > end` is an index error that changes nothing; otherwise the range is removed |
| Util.MyStringBuilder.RemoveRange | src/br/edu/fs/simulator/util/MyStringBuilder.java:120-124 | the shift that closes the gap leaves the contents with the range removed |
| Util.MyStringBuilder.Insert | src/br/edu/fs/simulator/util/MyStringBuilder.java:128-139 | an offset outside `[0, length]` is an index error that changes nothing; otherwise the string, or `null`, is inserted at the offset |
| Util.MyStringBuilder.InsertAt | src/br/edu/fs/simulator/util/MyStringBuilder.java:133-137 | after growing and shifting, the contents are the insertion |
| Util.MyStringBuilder.FillGap | src/br/edu/fs/simulator/util/MyStringBuilder.java:135-137 | with room available, shifting the tail right and writing the string gives the insertion in the same array |
| Util.MyStringBuilder.Clear | src/br/edu/fs/simulator/util/MyStringBuilder.java:141-143 | the contents become empty and the array is kept |
| Paths.LastSlash | src/br/edu/fs/simulator/FileSystemManager.java:79-85 | the index of the last `/`, or -1, with no `/` after it |
| Paths.BaseName | src/br/edu/fs/simulator/FileSystemManager.java:102-118 | `/` gives `/`; any other path gives a name with no `/` in it, no longer than the path |
| Paths.BaseNameOfChild | src/br/edu/fs/simulator/FileSystemManager.java:102-118 | the base name of `dir/name` is `name` |
| Paths.BaseNameIgnoresTrailingSlash | src/br/edu/fs/simulator/FileSystemManager.java:106-108 | one trailing `/` does not change the base name |
| Paths.Segments | src/br/edu/fs/simulator/FileSystemManager.java:34-40 | the pieces between slashes: there is at least one, and none contains `/` |
| Paths.JoinSegments | src/br/edu/fs/simulator/FileSystemManager.java:34-40 | joining the pieces with `/` gives back the path |
| Paths.SegmentsJoin | src/br/edu/fs/simulator/FileSystemManager.java:34-40 | splitting names joined with `/` gives back the names |
| Paths.SegmentsOfSplit | src/br/edu/fs/simulator/FileSystemManager.java:34-40 | adding `/name` at the end adds one piece |
| Paths.SegmentsWithTrailingSlash | src/br/edu/fs/simulator/FileSystemManager.java:31-33 | a trailing `/` adds one empty piece |
| Paths.SegmentsWithLeadingSlash | src/br/edu/fs/simulator/FileSystemManager.java:29-34 | a leading `/` adds one empty piece in front |
| Paths.DropTrailingEmpty | src/br/edu/fs/simulator/FileSystemManager.java:34 | removes exactly the trailing empty pieces, and what remains is a prefix |
| Paths.JavaSplit | src/br/edu/fs/simulator/FileSystemManager.java:34-40 | Java's split: every piece is free of `/`; a string without `/` is its own only piece, even when empty; otherwise the pieces are a prefix of the segments whose dropped tail is all empty, ending in a non-empty piece |
| Paths.Joined | src/br/edu/fs/simulator/Node.java:66-80 | the absolute path spelled by the names: `/` before each name, at least as long as the number of names |
| Paths.SegmentsOfJoined | src/br/edu/fs/simulator/Node.java:66-80 | an absolute path built from names splits back into an empty piece followed by those names |
| Paths.JoinedStartsWithSlash | src/br/edu/fs/simulator/Node.java:70-73 | a path built from at least one name starts with `/` |
| Paths.StripTrailingSlash | src/br/edu/fs/simulator/FileSystemManager.java:31-39 | one trailing `/` is removed from a path longer than one character, and nothing else changes |
| Nodes.IndexOfName | src/br/edu/fs/simulator/DirectoryNode.java:28-37 | the first position with the name, or -1 when no entry has it |
| Nodes.ChildNamed | src/br/edu/fs/simulator/DirectoryNode.java:39-47 | null exactly when no entry has the name, otherwise an entry with that name |
| Nodes.WithoutName | src/br/edu/fs/simulator/DirectoryNode.java:28-37 | removing by name drops one entry when the name is present and nothing otherwise |
| Nodes.IndexOfNameIs | src/br/edu/fs/simulator/DirectoryNode.java:29-34 | the first match found by the loop is the index of the name |
| Nodes.FindsUniqueSibling | src/br/edu/fs/simulator/DirectoryNode.java:39-47 | with unique names, looking up an entry's name finds that entry |
| Nodes.AppendKeepsNamesUnique | src/br/edu/fs/simulator/DirectoryNode.java:19-24 | appending an entry whose name is free keeps names unique, and the entry is then found by its name, in last place |
| Nodes.WithoutNameKeepsNamesUnique | src/br/edu/fs/simulator/DirectoryNode.java:28-37 | removal keeps names unique, removes the name, and adds nothing |
| Nodes.ReversedNames | src/br/edu/fs/simulator/Node.java:61-64 | the names of a parent chain, outermost first |
| Nodes.Node.DirectoryNode | src/br/edu/fs/simulator/DirectoryNode.java:8-11 | a directory with no entries and no buffer, created and updated at `now` |
| Nodes.Node.FileNode | src/br/edu/fs/simulator/FileNode.java:8-11 | a file with a fresh empty buffer, created and updated at `now` |
| Nodes.Node.SetName | src/br/edu/fs/simulator/Node.java:24-27 | the name is replaced and `updatedAt` refreshed; parent and creation time are kept |
| Nodes.Node.SetParent | src/br/edu/fs/simulator/Node.java:33-35 | only the parent changes; both timestamps are kept |
| Nodes.Node.SetUpdatedAt | src/br/edu/fs/simulator/Node.java:45-47 | only `updatedAt` changes |
| Nodes.Node.GetPath | src/br/edu/fs/simulator/Node.java:53-81 | a node without a parent has path `/`; otherwise it is the names of the chain below the top node, outermost first, each after a `/` (climbing stops at the root) |
| Nodes.Node.ClimbNames | src/br/edu/fs/simulator/Node.java:57-65 | climbing to the top collects the names on the way, outermost first, leaving out the top node |
| Nodes.Node.JoinPath | src/br/edu/fs/simulator/Node.java:66-80 | the names joined into an absolute path |
| Nodes.Node.GetPathPartsAsWritten | src/br/edu/fs/simulator/Node.java:61-64 | the climbing loop as written: for a non-root node under a root that is its own parent it never stops (within any fuel it reports `None`); it succeeds only when the chain ends at a null parent |
| Nodes.Node.AddChild | src/br/edu/fs/simulator/DirectoryNode.java:17-26 | a null child, or one whose name is taken, leaves everything unchanged; otherwise the child is appended last, gets this directory as parent, and `updatedAt` is refreshed |
| Nodes.Node.RemoveChild | src/br/edu/fs/simulator/DirectoryNode.java:28-37 | true exactly when an entry had the name; the first such entry is removed and `updatedAt` refreshed only then; otherwise the directory is unchanged |
| Nodes.Node.FindChild | src/br/edu/fs/simulator/DirectoryNode.java:39-47 | the first entry with the name, or null |
| Nodes.Node.IsEmpty | src/br/edu/fs/simulator/DirectoryNode.java:58-60 | true exactly when there are no entries |
| Nodes.Node.GetContent | src/br/edu/fs/simulator/FileNode.java:13-15 | the buffer's contents |
| Nodes.Node.SetContent | src/br/edu/fs/simulator/FileNode.java:17-21 | the contents become the new string whatever they were, and `updatedAt` is refreshed |
| Nodes.Node.AppendContent | src/br/edu/fs/simulator/FileNode.java:23-26 | the contents become the old contents followed by the string, and `updatedAt` is refreshed |
| Nodes.Node.FileSize | src/br/edu/fs/simulator/FileNode.java:28-31 | the length of the contents |
| Namespace.Tree.EntryDepth | src/br/edu/fs/simulator/DirectoryNode.java:23-24 | an entry of a directory points back to it, is not the root, and is one level deeper |
| Namespace.Tree.IndexOf | src/br/edu/fs/simulator/DirectoryNode.java:28-37 | the first position of the name among a directory's entries, or -1 |
| Namespace.Tree.Lookup | src/br/edu/fs/simulator/DirectoryNode.java:39-47 | null exactly when no entry has the name, otherwise the entry with that name |
| Namespace.Tree.LookupEntry | src/br/edu/fs/simulator/DirectoryNode.java:39-47 | with unique names, each entry is found by its own name |
| Namespace.Tree.WalkAppend | src/br/edu/fs/simulator/FileSystemManager.java:48-71 | walking two lists of segments one after the other is walking their concatenation, and a failure is final |
| Namespace.Tree.WalkOne | src/br/edu/fs/simulator/FileSystemManager.java:49-69 | one segment makes one step |
| Namespace.Tree.WalkEmpties | src/br/edu/fs/simulator/FileSystemManager.java:50 | empty segments are skipped |
| Namespace.Tree.SegmentNoOps | src/br/edu/fs/simulator/FileSystemManager.java:50-69 | anywhere in a path, an empty or `.` segment, or `..` at the root, changes nothing; any other segment once the walk is at a file makes resolution fail |
| Namespace.Tree.WalkJavaSplit | src/br/edu/fs/simulator/FileSystemManager.java:34-40 | the empty pieces Java's split drops would not have moved the walk |
| Namespace.Tree.ResolveBySplit | src/br/edu/fs/simulator/FileSystemManager.java:29-45 | resolving strips one trailing `/` and walks from the root for an absolute path, from the current directory otherwise |
| Namespace.Tree.ResolveRoot | src/br/edu/fs/simulator/FileSystemManager.java:27 | `/` resolves to the root |
| Namespace.Tree.ParentDirectory | src/br/edu/fs/simulator/FileSystemManager.java:74-100 | the parent directory of a path, when there is one, is a directory of the tree |
| Namespace.Tree.ResolveViaParent | src/br/edu/fs/simulator/FileSystemManager.java:74-118 | a path without a trailing `/` resolves to the entry named by its base name in its parent directory |
| Namespace.Tree.NamesFromRoot | src/br/edu/fs/simulator/Node.java:57-73 | one name per level below the root |
| Namespace.Tree.PathOf | src/br/edu/fs/simulator/Node.java:53-81 | an absolute path is never empty |
| Namespace.Tree.AncestorChain | src/br/edu/fs/simulator/Node.java:61-64 | the parents from a node up to the root, each the parent of the one before and none its own parent below the root |
| Namespace.Tree.ChainNames | src/br/edu/fs/simulator/Node.java:61-73 | the names from the root are the chain's names in reverse |
| Namespace.Tree.WalkNamesFromRoot | src/br/edu/fs/simulator/FileSystemManager.java:48-71 | walking a node's names from the root reaches the node |
| Namespace.Tree.ResolvePathOf | src/br/edu/fs/simulator/FileSystemManager.java:266-270 | the path `pwd` prints for a node still in the tree resolves back to that node, from any current directory |
| Namespace.Tree.ResolveBelow | src/br/edu/fs/simulator/FileSystemManager.java:21-72 | a directory's path followed by `/name` resolves to its entry `name` |
| Namespace.Tree.Found | src/br/edu/fs/simulator/FileSystemManager.java:406-420 | every node the search reports is in the tree |
| Namespace.Tree.FoundHasName | src/br/edu/fs/simulator/FileSystemManager.java:407-414 | every node the search reports has the searched name |
| Namespace.Tree.FoundInEntriesHaveName | src/br/edu/fs/simulator/FileSystemManager.java:410-418 | the same for the entries searched so far |
| Namespace.Tree.ResolveViaParentStep | src/br/edu/fs/simulator/FileSystemManager.java:74-118 | without a trailing `/`, a path resolves by one step from its parent directory by its base name, whatever that name is |
| Namespace.Tree.UnresolvedBaseName | src/br/edu/fs/simulator/FileSystemManager.java:328-359 | when the parent part names a directory but the whole path resolves to nothing, the base name is a name a path can spell (not empty, `.` or `..`, and free of `/`) |
| Namespace.Tree.AddedNamed | src/br/edu/fs/simulator/FileSystemManager.java:140-141 | adding an entry under a spellable name keeps every name spellable |
| Namespace.Tree.UnlinkedNamed | src/br/edu/fs/simulator/FileSystemManager.java:304 | removing an entry renames nothing |
| Namespace.Tree.RelinkedNamed | src/br/edu/fs/simulator/FileSystemManager.java:382-385 | relinking under a spellable name keeps every name spellable |
| Namespace.Tree.UnderTransitive | src/br/edu/fs/simulator/FileSystemManager.java:362-372 | lying below is transitive |
| Namespace.Tree.UnderUnique | src/br/edu/fs/simulator/FileSystemManager.java:362-372 | a node has one ancestor at each depth |
| Namespace.Tree.UnderRoot | src/br/edu/fs/simulator/FileSystemManager.java:362-372 | every node lies below the root |
| Namespace.Tree.EntryAbove | src/br/edu/fs/simulator/FileSystemManager.java:410-418 | a node hanging strictly below a directory lies below one of its entries |
| Namespace.Tree.NotUnderSibling | src/br/edu/fs/simulator/FileSystemManager.java:410-418 | a node below one entry of a directory is below none of its other entries |
| Namespace.Tree.FoundBelow | src/br/edu/fs/simulator/FileSystemManager.java:406-420 | every node the search from a directory reports lies below that directory |
| Namespace.Tree.FoundInEntriesBelow | src/br/edu/fs/simulator/FileSystemManager.java:410-418 | what the entries of a directory report lies strictly below it |
| Namespace.Tree.FoundAtEntryBelow | src/br/edu/fs/simulator/FileSystemManager.java:410-418 | what one entry reports lies below that entry |
| Namespace.Tree.FoundAttached | src/br/edu/fs/simulator/FileSystemManager.java:406-420 | the search from an attached directory reports only attached nodes |
| Namespace.Tree.FoundAtEntryAvoids | src/br/edu/fs/simulator/FileSystemManager.java:410-418 | an entry reports no node outside its own subtree |
| Namespace.Tree.FoundBeforeEntry | src/br/edu/fs/simulator/FileSystemManager.java:410-418 | the entries before the one a node lies below never report it |
| Namespace.Tree.FoundAfterEntry | src/br/edu/fs/simulator/FileSystemManager.java:410-418 | the entries after the one a node lies below never report it |
| Namespace.Tree.FoundCount | src/br/edu/fs/simulator/FileSystemManager.java:406-420 | the search from a directory reports an attached node with the name 0 times outside its subtree, once for itself or a file, twice for a directory below it |
| Namespace.Tree.FoundStrictlyBelow | src/br/edu/fs/simulator/FileSystemManager.java:410-418 | the entries of a directory report a node below it once for a file and twice for a directory |
| Namespace.Tree.FoundAtEntryCount | src/br/edu/fs/simulator/FileSystemManager.java:412-418 | the entry a node lies below reports it once for a file and twice for a directory: once as an entry, once as the first finding below it |
| Namespace.Tree.FindReportsAll | src/br/edu/fs/simulator/FileSystemManager.java:392-420 | `find` reports exactly the attached nodes with the name: the root and each file once, each other directory twice |
| Namespace.Tree.FoundPathsResolve | src/br/edu/fs/simulator/FileSystemManager.java:392-420 | each path `find` prints resolves back to the node it was printed for |
| Namespace.Tree.FoundInEntriesPrefix | src/br/edu/fs/simulator/FileSystemManager.java:410-418 | entries are searched in order: earlier results are a prefix of later ones |
| Namespace.Tree.FindReportsEntry | src/br/edu/fs/simulator/FileSystemManager.java:406-420 | an entry with the name is reported, and a directory entry is reported twice in a row |
| Namespace.Tree.PathsOf | src/br/edu/fs/simulator/FileSystemManager.java:408 | the absolute path of each reported node, in order |
| Namespace.Tree.PathsOfAppend | src/br/edu/fs/simulator/FileSystemManager.java:408 | paths of a concatenation are the concatenated paths |
| Namespace.Tree.SearchStep | src/br/edu/fs/simulator/FileSystemManager.java:410-418 | one turn of the loop extends the report by the next entry's findings |
| Namespace.Tree.AddedFields | src/br/edu/fs/simulator/DirectoryNode.java:23-24 | adding a node sets only its own fields and the directory's entries |
| Namespace.Tree.AddedLinks | src/br/edu/fs/simulator/DirectoryNode.java:23-24 | adding keeps every node in the tree and every entry pointing back to its directory |
| Namespace.Tree.AddedUniqueNames | src/br/edu/fs/simulator/DirectoryNode.java:19-24 | adding under a free name keeps sibling names unique |
| Namespace.Tree.AddedValid | src/br/edu/fs/simulator/FileSystemManager.java:120-173 | adding a node under a free name keeps the tree valid; the node becomes the last entry and is found by its name, and no other node changes |
| Namespace.Tree.AddedKeepsStep | src/br/edu/fs/simulator/FileSystemManager.java:49-69 | a step that succeeded before an addition goes to the same node afterwards |
| Namespace.Tree.AddedKeepsWalk | src/br/edu/fs/simulator/FileSystemManager.java:48-71 | so does every walk that succeeded |
| Namespace.Tree.AddedResolves | src/br/edu/fs/simulator/FileSystemManager.java:120-173 | after `mkdir`/`createFile` of a path without a trailing `/`, that path resolves to the new node |
| Namespace.Tree.WithoutEntry | src/br/edu/fs/simulator/DirectoryNode.java:28-37 | removing by name drops exactly that entry, keeps the others in their order with unique names, and no entry keeps the name |
| Namespace.Tree.UnlinkedNothing | src/br/edu/fs/simulator/DirectoryNode.java:36 | removing a missing name changes nothing |
| Namespace.Tree.UnlinkedFields | src/br/edu/fs/simulator/DirectoryNode.java:28-37 | removing changes only the directory's entries |
| Namespace.Tree.SubsetValid | src/br/edu/fs/simulator/DirectoryNode.java:28-37 | keeping a subset of one directory's entries keeps the tree valid |
| Namespace.Tree.UnlinkedValid | src/br/edu/fs/simulator/FileSystemManager.java:272-313 | after removal the tree is valid, the name is gone from the parent, the removed node is nobody's entry, and everything else is kept |
| Namespace.Tree.UnlinkedKeepsAttached | src/br/edu/fs/simulator/FileSystemManager.java:304 | nodes outside the removed one stay reachable from the root |
| Namespace.Tree.UnlinkedKeepsNames | src/br/edu/fs/simulator/FileSystemManager.java:304 | removal changes no node's names from the root |
| Namespace.Tree.RemovedUnresolvable | src/br/edu/fs/simulator/FileSystemManager.java:272-313 | after `rm`, the removed node's old absolute path resolves to nothing |
| Namespace.Tree.Under | src/br/edu/fs/simulator/FileSystemManager.java:362-372 | a node below another is at least as deep |
| Namespace.Tree.UnderDirectory | src/br/edu/fs/simulator/FileSystemManager.java:362-372 | a node strictly below another means the other is a directory, so a file needs no cycle check |
| Namespace.Tree.UnderAgrees | src/br/edu/fs/simulator/FileSystemManager.java:362-372 | the ancestor relation depends only on parents |
| Namespace.Tree.RelinkedFields | src/br/edu/fs/simulator/FileSystemManager.java:378-385 | relinking changes the moved node's name and parent, the destination's entries, and the depths below the moved node |
| Namespace.Tree.RelinkedLinks | src/br/edu/fs/simulator/FileSystemManager.java:378-385 | relinking keeps every entry pointing back to its directory |
| Namespace.Tree.RelinkedUniqueNames | src/br/edu/fs/simulator/FileSystemManager.java:378-385 | relinking under a free name keeps sibling names unique |
| Namespace.Tree.RelinkedDepths | src/br/edu/fs/simulator/FileSystemManager.java:362-385 | when the destination is not below the moved node, parents still lead to the root |
| Namespace.Tree.RelinkedValid | src/br/edu/fs/simulator/FileSystemManager.java:376-385 | relinking a detached node into a directory is valid, and the node is found there under its new name |
| Namespace.Tree.UnlinkedForMove | src/br/edu/fs/simulator/FileSystemManager.java:376-379 | after unlinking the source, the destination is still free and not below it |
| Namespace.Tree.MovedValid | src/br/edu/fs/simulator/FileSystemManager.java:315-390 | a move keeps the tree valid; the source is the destination's entry under the new name, with its parent set, and is gone from every other directory; nothing else changes |
| FileSystem.FileSystemManager.constructor | src/br/edu/fs/simulator/FileSystemManager.java:13-19 | a root named `/` that is its own parent and has no entries, which is also the current directory |
| FileSystem.FileSystemManager.KidsMirror | src/br/edu/fs/simulator/DirectoryNode.java:28-47 | the heap lookups by name agree with the tree's |
| FileSystem.FileSystemManager.LookupMirror | src/br/edu/fs/simulator/DirectoryNode.java:39-47 | `findChild` on the heap returns the tree's entry of that name |
| FileSystem.FileSystemManager.GetNodeByPath | src/br/edu/fs/simulator/FileSystemManager.java:21-72 | the node the path designates, or null |
| FileSystem.FileSystemManager.WalkParts | src/br/edu/fs/simulator/FileSystemManager.java:48-71 | the loop over segments computes the walk |
| FileSystem.FileSystemManager.LastSlashIndex | src/br/edu/fs/simulator/FileSystemManager.java:79-85 | the backwards scan finds the last `/` |
| FileSystem.FileSystemManager.GetParentDirectoryFromPath | src/br/edu/fs/simulator/FileSystemManager.java:74-100 | the parent directory of the path, or null |
| FileSystem.FileSystemManager.GetBaseNameFromPath | src/br/edu/fs/simulator/FileSystemManager.java:102-118 | the base name of the path |
| FileSystem.FileSystemManager.Cat | src/br/edu/fs/simulator/FileSystemManager.java:222-236 | a missing path or a directory is an error; a file gives its contents |
| FileSystem.FileSystemManager.CdTarget | src/br/edu/fs/simulator/FileSystemManager.java:238-264 | a successful `cd` always goes to a directory of the tree |
| FileSystem.FileSystemManager.CdFollowsResolve | src/br/edu/fs/simulator/FileSystemManager.java:238-264 | `cd path` goes to the path's node when it is a directory, fails with not-found or not-a-directory otherwise; an empty path succeeds only at the root |
| FileSystem.FileSystemManager.SetCurrentDirectory | src/br/edu/fs/simulator/FileSystemManager.java:248-255 | only the current directory changes |
| FileSystem.FileSystemManager.Cd | src/br/edu/fs/simulator/FileSystemManager.java:238-264 | the current directory moves on success and stays on failure; the tree never changes |
| FileSystem.FileSystemManager.ChainLinks | src/br/edu/fs/simulator/Node.java:61-64 | the heap's parent pointers form the tree's ancestor chain |
| FileSystem.FileSystemManager.ChainMirror | src/br/edu/fs/simulator/Node.java:53-81 | the path built from the heap's parent chain is the node's absolute path |
| FileSystem.FileSystemManager.GetPathOf | src/br/edu/fs/simulator/Node.java:53-81 | the node's absolute path |
| FileSystem.FileSystemManager.Pwd | src/br/edu/fs/simulator/FileSystemManager.java:266-270 | the absolute path of the current directory |
| FileSystem.FileSystemManager.EntrySizeBounded | src/br/edu/fs/simulator/DirectoryNode.java:49-56 | an entry's size is at most its directory's size |
| FileSystem.FileSystemManager.SizesOfEntriesGrow | src/br/edu/fs/simulator/DirectoryNode.java:51-55 | the running total never decreases |
| FileSystem.FileSystemManager.GetSize | src/br/edu/fs/simulator/DirectoryNode.java:49-56 | a file's size is its length; a directory's is the sum over its entries, so an empty one has size 0 |
| FileSystem.FileSystemManager.ReportIfNamed | src/br/edu/fs/simulator/FileSystemManager.java:407-408 | a node with the name has its path appended |
| FileSystem.FileSystemManager.FindRecursive | src/br/edu/fs/simulator/FileSystemManager.java:406-420 | the paths appended are those of the nodes the search finds, in depth-first entry order |
| FileSystem.FileSystemManager.SearchEntry | src/br/edu/fs/simulator/FileSystemManager.java:412-418 | one entry appends its own path if it has the name, then its directory's findings |
| FileSystem.FileSystemManager.Find | src/br/edu/fs/simulator/FileSystemManager.java:392-404 | the paths of the nodes `Found(root, name)` reports, depth-first from the root in entry order; `FindReportsAll` and `FoundPathsResolve` show these are exactly the attached nodes with the name, each resolving back to its node |
| FileSystem.FileSystemManager.CreateTarget | src/br/edu/fs/simulator/FileSystemManager.java:120-173 | a successful creation goes into a directory of the tree under a proper, free name |
| FileSystem.FileSystemManager.AddedInvariant | src/br/edu/fs/simulator/DirectoryNode.java:17-26 | appending a new leaf on the heap keeps the manager's invariant |
| FileSystem.FileSystemManager.AddEntry | src/br/edu/fs/simulator/DirectoryNode.java:17-26 | the tree gains the new node as the directory's last entry, and the directory's `updatedAt` is refreshed |
| FileSystem.FileSystemManager.Mkdir | src/br/edu/fs/simulator/FileSystemManager.java:120-144 | an improper name, a missing parent or a taken name fail in that order, with nothing changed; otherwise a fresh empty directory becomes the parent's last entry; no existing node but the parent is modified |
| FileSystem.FileSystemManager.CreateFile | src/br/edu/fs/simulator/FileSystemManager.java:146-173 | the same checks as `mkdir`; on success a fresh file with the given content, or empty content, becomes the parent's last entry; no existing node but the parent is modified |
| FileSystem.FileSystemManager.CreatedResolves | src/br/edu/fs/simulator/FileSystemManager.java:120-173 | after a successful creation the path resolves to the new node |
| FileSystem.FileSystemManager.NewFile | src/br/edu/fs/simulator/FileSystemManager.java:166-169 | a fresh file holding the content, or empty content when none is given |
| FileSystem.FileSystemManager.RmCheck | src/br/edu/fs/simulator/FileSystemManager.java:272-313 | a node `rm` removes is not the root, has a parent entry of its name, and is a file or an empty directory |
| FileSystem.FileSystemManager.DroppedInvariant | src/br/edu/fs/simulator/DirectoryNode.java:28-37 | removing an entry on the heap keeps the manager's invariant |
| FileSystem.FileSystemManager.DropEntry | src/br/edu/fs/simulator/DirectoryNode.java:28-37 | true exactly when the directory had the name; the tree then drops that entry, and otherwise the directory is unchanged |
| FileSystem.FileSystemManager.Rm | src/br/edu/fs/simulator/FileSystemManager.java:272-313 | a missing path, the root, a non-empty directory or a parent without the name fail in that order with nothing changed (the parent, which `removeChild` is still called on in the last case, is proved unchanged); otherwise the parent drops the entry of the node's name and the current directory is left as it was; no node but that parent is modified |
| FileSystem.FileSystemManager.RemovedPathGone | src/br/edu/fs/simulator/FileSystemManager.java:272-313 | after a successful `rm` of a node attached to the root, that node's absolute path no longer resolves |
| FileSystem.FileSystemManager.MoveDestination | src/br/edu/fs/simulator/FileSystemManager.java:328-359 | a chosen destination is a directory of the tree where the new name is free, and a new name taken from the destination path can be spelled in a path |
| FileSystem.FileSystemManager.MovePlan | src/br/edu/fs/simulator/FileSystemManager.java:315-372 | a planned move has a source that is not the root, and a destination directory distinct from the source with the new name free; the new name can be spelled in a path |
| FileSystem.FileSystemManager.PlannedMoveAcyclic | src/br/edu/fs/simulator/FileSystemManager.java:362-372 | a planned move never puts a node below itself |
| FileSystem.FileSystemManager.RelinkedInvariant | src/br/edu/fs/simulator/FileSystemManager.java:378-385 | relinking on the heap keeps the manager's invariant |
| FileSystem.FileSystemManager.RelinkEntry | src/br/edu/fs/simulator/FileSystemManager.java:382-385 | the detached source gets its new name and parent and becomes the destination's last entry |
| FileSystem.FileSystemManager.MoveEntry | src/br/edu/fs/simulator/FileSystemManager.java:376-385 | removal from the old parent by name, then relinking, is the move; the old parent's `updatedAt` is refreshed when it had an entry of the source's name, and otherwise left alone unless it is the destination |
| FileSystem.FileSystemManager.IsBelow | src/br/edu/fs/simulator/FileSystemManager.java:362-372 | the loop climbing from the destination to the root finds the source exactly when the destination is below it |
| FileSystem.FileSystemManager.ChooseDestination | src/br/edu/fs/simulator/FileSystemManager.java:328-359 | an existing directory keeps the source's name, an existing file is an error, otherwise the parent directory and base name of the destination path are used, and the name must be free |
| FileSystem.FileSystemManager.PlanMove | src/br/edu/fs/simulator/FileSystemManager.java:315-372 | the checks of `mv` in their order |
| FileSystem.FileSystemManager.Mv | src/br/edu/fs/simulator/FileSystemManager.java:315-390 | a failed check changes nothing; otherwise the source leaves its old parent and becomes the destination's last entry under the new name, and the current directory is left as it was; only the source, its old parent and the destination directory are modified, and the old parent's `updatedAt` is refreshed when it dropped an entry and left alone when it dropped none and is not the destination |

## Left out

- `Journal` (operation log with date formatting and file output), all console messages, `ls`, `tree` and `printTreeRecursive`, the interactive shell and `SimpleConsoleReader` are output or I/O only. Each operation returns an error value instead of printing it.
- The system clock is a `now: int` parameter of every operation that stamps a time.
- `MyArrayList` is not part of this model; a directory's entries are a `seq<Node>` field that the methods reassign.
- The Java `null` path arguments are not modelled, because Dafny strings are never null. The empty path is modelled. Content strings keep `null` as `Option.None`, because appending null appends the text `null`.
- The `null`-parent branches in `getNodeByPath` (line 56), `cd` (lines 243-245), `rm` (lines 287-291) and `mv` (line 377) are not modelled. The root is its own parent and every other node in the tree has a directory parent, so these branches cannot be taken.
- Util.MyStringBuilder.ExpandCapacity: does not model the Java `int` overflow branch (lines 35-38); capacities are unbounded naturals.
- The `append` overloads for `Object`, `boolean`, `int`, `long`, `float` and `double` (MyStringBuilder.java:57-59, 75-93) depend on `String.valueOf` and are not modelled.
- `Node.getType` and the other plain getters are field reads; the node kind and `createdAt` are `const`, so neither can change after construction, under any operation.
- Namespace.Tree.AddedResolves: a path ending in `/` is excluded. For `mkdir a/b/` the parent directory is looked up from `a/b` itself, not from `a`, and the model keeps that behaviour as written in `CreateTarget` without a resolution lemma for it.
- Namespace.Tree.RemovedUnresolvable: stated for nodes still reachable from the root. `rm` removes from the parent by name, so with a detached current directory it can remove a different node of the same name; `Rm` states exactly that.
- Namespace.Tree.MovedValid: the result is stated through the tree (the source is the destination's entry under the new name), not as a lemma that the new absolute path resolves to the source.
- Util.MyStringBuilder.WithCapacity: the capacity is a natural number, so a negative capacity, which makes `new char[capacity]` throw `NegativeArraySizeException` (MyStringBuilder.java:13-16), is not modelled.
- Util.MyStringBuilder.Length: a Dafny `char` is a Unicode scalar value, while a Java `char` is a UTF-16 code unit. For text outside the Basic Multilingual Plane the Java length counts two units per character where the model counts one.
- Nodes.Node.FileSize: the same unit difference as `Length`. A file's size is its count of `char` values, not of UTF-16 code units.
- FileSystem.FileSystemManager.GetSize: the same unit difference, summed over the files below a directory. Also, the Java `int` sum (DirectoryNode.java:51-53) wraps for totals above 2^31-1, which the model's `nat` sum does not; `EntrySizeBounded` and `SizesOfEntriesGrow` hold only for the unbounded sum.
- The indices of `charAt`, `deleteCharAt`, `delete` and `insert` count `char` values as above. They agree with the Java indices only for text inside the Basic Multilingual Plane.
- FileSystem.FileSystemManager.Mkdir, FileSystem.FileSystemManager.CreateFile, FileSystem.FileSystemManager.Cd, FileSystem.FileSystemManager.Pwd, FileSystem.FileSystemManager.Mv and FileSystem.FileSystemManager.Find model the program with `getPath` corrected (see Findings). As written, these operations never return normally on any path that reaches a `getPath` call. That covers each success (FileSystemManager.java:142-143, 171-172, 242, 249, 256, 267, 388-389), the AlreadyExists error of `mkdir` and `createFile` (lines 135 and 161), and `find` whenever some node has the name (lines 408 and 414). `mkdir`, `createFile`, `cd` and `mv` make their change before that call. Their other paths return normally, and the model matches them. These are the invalid-name and missing-parent errors of `mkdir` and `createFile`, `cd` to a missing path or a file, every failed check of `mv`, and `find` when no node has the name.
- The current directory is never repaired after `rm` or `mv`. A removed or moved current directory stays current, and relative paths are then resolved from it.
- Nodes.Node.GetPathPartsAsWritten: takes a `fuel` bound in place of an unbounded loop, so it states the divergence as "no answer within any fuel".

## Findings

| source | as written | input that shows it | evidently intended | confidence | as-written member | corrected member |
|---|---|---|---|---|---|---|
| src/br/edu/fs/simulator/Node.java:61-64 | the climbing loop stops only at a node whose parent is null, but the root is its own parent (FileSystemManager.java:15), so the loop never ends for any node, the root included: no `getPath` call returns | `getPath()` on the root (the first `pwd`), or on any entry of the root, such as the directory made by `mkdir a` | climbing stops at the root, giving `/a` | not executed | Nodes.Node.GetPathPartsAsWritten | Nodes.Node.GetPath |
