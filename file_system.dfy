/**
 * `FileSystemManager`: the namespace rooted at "/", the current directory,
 * path resolution, and the commands mkdir, createFile, rm, mv, cd, cat, pwd
 * and find.
 *
 * The manager keeps, as the ghost value `tree`, the name, parent and entries
 * of every node it ever created, attached or detached (it never repairs
 * `currentDirectory` after `rm` or `mv`, so the current directory may be a
 * node no longer reachable from the root). `Mirrors` ties the nodes' fields
 * to that value, so every command is specified by a function of `tree`.
 */
module FileSystem {
  import opened Wrappers
  import opened Util
  import opened Nodes
  import opened Paths
  import opened Namespace

  /** Why a command refused to act; each corresponds to one error message. */
  datatype Error =
    | InvalidName        // mkdir / createFile: the base name is "", "." or ".."
    | ParentNotFound     // mkdir / createFile / mv: the parent path is missing or not a directory
    | AlreadyExists      // mkdir / createFile: the parent already has an entry of that name
    | NotFound           // rm / mv / cd / cat: the path does not resolve
    | NotADirectory      // cd: the path names a file
    | IsADirectory       // cat: the path names a directory
    | DirectoryNotEmpty  // rm: the directory still has entries
    | CannotRemoveRoot   // rm: the path names the root
    | CannotMoveRoot     // mv: the source is the root
    | DestinationExists  // mv: the destination directory already has an entry of that name
    | DestinationIsFile  // mv: the destination names an existing file
    | CyclicMove         // mv: a directory moved into itself or one of its descendants
    | RemoveFailed       // rm: the parent no longer lists an entry of that name

  /** What a successful `mv` does: re-link `src` under `destDir` as `newName`. */
  datatype Move = Move(src: Node, destDir: Node, newName: string)

  class FileSystemManager {
    var root: Node
    var currentDirectory: Node
    /** Every node this manager ever created, with its name, parent and entries. */
    ghost var tree: Tree
    /** The nodes and the content buffers of the files among them. */
    ghost var Repr: set<object>

    /** The namespace is a tree hanging from `root` whose names can all be
        spelled in a path, and the current directory is one of its directories. */
    ghost predicate TreeValid()
      reads this
    {
      && tree.Valid() && tree.Named() && tree.root == root
      && currentDirectory in tree.entries && currentDirectory.kind == Directory
    }

    /** Each node's fields are what `tree` records for it. */
    ghost predicate Mirrors()
      reads this, tree.entries.Keys
    {
      && (forall n {:trigger n.name} :: n in tree.entries ==> n.name == tree.Name(n))
      && (forall n {:trigger n.parent} :: n in tree.entries ==> n.parent == tree.Parent(n))
      && (forall n {:trigger n.children} :: n in tree.entries ==> n.children == tree.Children(n))
    }

    /** Every file's content buffer is sound. */
    ghost predicate Buffers()
      reads this, Repr
    {
      forall n {:trigger n.content} :: n in tree.entries && n.content != null ==> n.content in Repr && n.content.Valid()
    }

    ghost predicate Valid()
      reads this, Repr
    {
      && tree.entries.Keys <= Repr
      && TreeValid() && Mirrors() && Buffers()
    }

    /** The state after `new FileSystemManager()`: a root directory "/" that is
        its own parent, and the current directory at the root. */
    constructor (now: int)
      ensures Valid()
      ensures root.name == "/" && root.kind == Directory && root.children == [] && root.parent == root
      ensures root.createdAt == now && root.updatedAt == now
      ensures currentDirectory == root && tree.entries.Keys == {root}
    {
      var r := new Node.DirectoryNode("/", null, now);
      r.SetParent(r);
      root := r;
      currentDirectory := r;
      tree := Tree(map[r := Entry("/", r, [])], r, map[r := 0], 0);
      Repr := {r};
    }

    // ------------------------------------------------------------------
    // The heap and the tree agree
    // ------------------------------------------------------------------

    /** On nodes of the tree, the heap's lookups by name are the tree's. */
    lemma KidsMirror(kids: seq<Node>, name: string)
      requires Mirrors() && forall k {:trigger k in kids} :: k in kids ==> k in tree.entries
      ensures IndexOfName(kids, name) == tree.IndexOf(kids, name)
      ensures WithoutName(kids, name) == tree.Without(kids, name)
      ensures ChildNamed(kids, name) == (if tree.IndexOf(kids, name) < 0 then null else kids[tree.IndexOf(kids, name)])
    {
      forall j | 0 <= j < |kids|
        ensures kids[j].name == tree.Name(kids[j])
      {
        assert kids[j] in kids;
      }
      var i := tree.IndexOf(kids, name);
      if i >= 0 {
        IndexOfNameIs(kids, name, i);
      }
    }

    /** `findChild` on a directory of the tree is the tree's lookup. */
    lemma LookupMirror(d: Node, name: string)
      requires Valid() && d in tree.entries
      ensures ChildNamed(d.children, name) == tree.Lookup(d, name)
      ensures IndexOfName(d.children, name) < 0 <==> tree.Lookup(d, name) == null
    {
      KidsMirror(d.children, name);
    }

    // ------------------------------------------------------------------
    // Path resolution
    // ------------------------------------------------------------------

    /** `getNodeByPath`: the node `path` designates from the current directory, or null. */
    method GetNodeByPath(path: string) returns (r: Node?)
      requires Valid()
      ensures r == tree.Resolve(currentDirectory, path)
    {
      if |path| == 0 {
        return null;
      }
      if path == "/" {
        tree.ResolveRoot(currentDirectory);
        return root;
      }
      tree.ResolveBySplit(currentDirectory, path);
      var parts: seq<string>;
      var startNode: Node;
      var p := path;
      if p[0] == '/' {
        startNode := root;
        if |p| > 1 && p[|p| - 1] == '/' {
          p := p[..|p| - 1];
        }
        parts := JavaSplit(p[1..]);
      } else {
        startNode := currentDirectory;
        if p[|p| - 1] == '/' {
          p := p[..|p| - 1];
        }
        parts := JavaSplit(p);
      }
      if |parts| == 1 && parts[0] == "" && p[0] == '/' {
        tree.WalkOne(root, "");
        return root;
      }
      r := WalkParts(startNode, parts);
    }

    /** The segment loop of `getNodeByPath`: applies `parts` from `startNode`,
        giving up (null) as soon as a step fails. */
    method WalkParts(startNode: Node, parts: seq<string>) returns (r: Node?)
      requires Valid() && startNode in tree.entries
      ensures r == tree.Walk(startNode, parts)
    {
      var currentNode := startNode;
      for i := 0 to |parts|
        invariant currentNode in tree.entries
        invariant tree.Walk(startNode, parts) == tree.Walk(currentNode, parts[i..])
      {
        var part := parts[i];
        assert parts[i..][0] == part && parts[i..][1..] == parts[i + 1..];
        if part == "" {
          continue;
        }
        if part == "." {
          continue;
        } else if part == ".." {
          if currentNode.kind == Directory {
            currentNode := currentNode.parent;
          } else {
            return null;
          }
        } else {
          if currentNode.kind == Directory {
            LookupMirror(currentNode, part);
            var child := currentNode.FindChild(part);
            if child == null {
              return null;
            }
            currentNode := child;
          } else {
            return null;
          }
        }
      }
      return currentNode;
    }

    /** The index of the last '/' in `path`, found by scanning from the end. */
    static method LastSlashIndex(path: string) returns (lastSlash: int)
      ensures lastSlash == LastSlash(path)
    {
      lastSlash := -1;
      var i := |path| - 1;
      while i >= 0
        invariant -1 <= i < |path|
        invariant forall j :: i < j < |path| ==> path[j] != '/'
        decreases i + 1
      {
        if path[i] == '/' {
          lastSlash := i;
          break;
        }
        i := i - 1;
      }
      LastSlashIs(path, lastSlash);
    }

    /** `getParentDirectoryFromPath`. */
    method GetParentDirectoryFromPath(path: string) returns (d: Node?)
      requires Valid()
      ensures d == tree.ParentDirectory(currentDirectory, path)
    {
      if |path| == 0 || path == "/" {
        return null;
      }
      var lastSlash := LastSlashIndex(path);
      if lastSlash == -1 {
        return currentDirectory;
      }
      if lastSlash == 0 {
        return root;
      }
      var parentNode := GetNodeByPath(path[..lastSlash]);
      if parentNode != null && parentNode.kind == Directory {
        return parentNode;
      }
      return null;
    }

    /** `getBaseNameFromPath`. */
    static method GetBaseNameFromPath(path: string) returns (b: string)
      ensures b == BaseName(path)
    {
      if |path| == 0 {
        return "";
      }
      if path == "/" {
        return "/";
      }
      var p := path;
      if p[|p| - 1] == '/' {
        p := p[..|p| - 1];
      }
      var lastSlash := LastSlashIndex(p);
      b := p[lastSlash + 1..];
    }

    // ------------------------------------------------------------------
    // cat, cd and pwd
    // ------------------------------------------------------------------

    /** `cat`: the content of the file `path` designates. */
    method Cat(path: string) returns (r: Result<string, Error>)
      requires Valid()
      ensures var n := tree.Resolve(currentDirectory, path);
              && (n == null ==> r == Err(NotFound))
              && (n != null && n.kind == Directory ==> r == Err(IsADirectory))
              && (n != null && n.kind == File ==> n.content != null && r == Ok(n.content.Contents()))
    {
      var node := GetNodeByPath(path);
      if node == null {
        return Err(NotFound);
      }
      if node.kind == File {
        var text := node.GetContent();
        return Ok(text);
      }
      return Err(IsADirectory);
    }

    /** Where `cd path` goes: ".." to the parent (the root stays put), "/" to
        the root, "" to the root only when already there, anything else to
        the directory it resolves to. */
    ghost function CdTarget(path: string): (r: Result<Node, Error>)
      reads this
      requires TreeValid()
      ensures r.Ok? ==> r.value in tree.entries && r.value.kind == Directory
    {
      if path == ".." then Ok(tree.Parent(currentDirectory))
      else if path == "/" || (path == "" && currentDirectory == root) then Ok(root)
      else
        var t := tree.Resolve(currentDirectory, path);
        if t == null then Err(NotFound)
        else if t.kind == Directory then Ok(t)
        else Err(NotADirectory)
    }

    /** The special cases of `cd` agree with resolution: for every non-empty
        path `cd` goes where the path resolves, if that is a directory, and
        fails as resolution does otherwise; `cd ""` works only at the root. */
    lemma CdFollowsResolve(path: string)
      requires TreeValid()
      ensures path != "" ==>
                CdTarget(path) == (var t := tree.Resolve(currentDirectory, path);
                                   if t == null then Err(NotFound)
                                   else if t.kind == Directory then Ok(t)
                                   else Err(NotADirectory))
      ensures path == "" ==> (CdTarget(path).Ok? <==> currentDirectory == root)
    {
      if path == ".." {
        LastSlashIs("..", -1);
        assert Segments("..") == [".."];
        tree.WalkOne(currentDirectory, "..");
      } else if path == "/" {
        tree.ResolveRoot(currentDirectory);
      }
    }

    /** Makes `d` the current directory; nothing else changes. */
    method SetCurrentDirectory(d: Node)
      requires Valid() && d in tree.entries && d.kind == Directory
      modifies this
      ensures Valid() && currentDirectory == d
      ensures root == old(root) && tree == old(tree) && Repr == old(Repr)
    {
      currentDirectory := d;
    }

    /** `cd`: moves to `CdTarget(path)`, or reports why not and stays. */
    method Cd(path: string) returns (r: Outcome<Error>)
      requires Valid()
      modifies this
      ensures Valid()
      ensures root == old(root) && tree == old(tree) && Repr == old(Repr)
      ensures old(CdTarget(path)).Ok? ==> r == Pass && currentDirectory == old(CdTarget(path)).value
      ensures old(CdTarget(path)).Err? ==>
                r == Fail(old(CdTarget(path)).error) && currentDirectory == old(currentDirectory)
    {
      if path == ".." {
        SetCurrentDirectory(currentDirectory.parent);
        return Pass;
      } else if path == "/" || (|path| == 0 && currentDirectory == root) {
        SetCurrentDirectory(root);
        return Pass;
      }
      var targetNode := GetNodeByPath(path);
      if targetNode != null && targetNode.kind == Directory {
        SetCurrentDirectory(targetNode);
        return Pass;
      } else if targetNode != null && targetNode.kind == File {
        return Fail(NotADirectory);
      } else {
        return Fail(NotFound);
      }
    }

    /** The parent links of the heap run along the tree's ancestor chain. */
    lemma ChainLinks(n: Node)
      requires Valid() && n in tree.entries
      ensures IsParentChain(tree.AncestorChain(n)) && n.parent != null
    {
      var chain := tree.AncestorChain(n);
      forall i | 0 <= i < |chain| - 1
        ensures chain[i].parent == chain[i + 1] && chain[i + 1] != chain[i]
      {
        assert chain[i] in tree.entries;
      }
    }

    /** The parent chain of a node of the tree, read in the heap, is the
        tree's ancestor chain, and the names along it give the node's
        absolute path. */
    lemma ChainMirror(n: Node)
      requires Valid() && n in tree.entries
      ensures var chain := tree.AncestorChain(n);
              && IsParentChain(chain) && n.parent != null
              && (|chain| == 1 ==> n.name == "/" && tree.PathOf(n) == "/")
              && (|chain| > 1 ==> Joined(ReversedNames(chain[..|chain| - 1])) == tree.PathOf(n))
    {
      ChainLinks(n);
      if n != root {
        var chain := tree.AncestorChain(n);
        tree.ChainNames(n);
        var d := tree.Depth(n);
        var names := ReversedNames(chain[..d]);
        var expected := tree.NamesFromRoot(n);
        forall i | 0 <= i < d
          ensures names[i] == expected[i]
        {
          assert chain[d - 1 - i] in tree.entries;
        }
        assert names == expected;
      }
    }

    /** `n.getPath()` for a node of the tree: its absolute path. */
    method GetPathOf(n: Node) returns (path: string)
      requires Valid() && n in tree.entries
      ensures path == tree.PathOf(n)
    {
      ChainMirror(n);
      path := n.GetPath(tree.AncestorChain(n));
    }

    /** `pwd`: the absolute path of the current directory. */
    method Pwd() returns (path: string)
      requires Valid()
      ensures path == tree.PathOf(currentDirectory)
    {
      path := GetPathOf(currentDirectory);
    }

    // ------------------------------------------------------------------
    // Sizes
    // ------------------------------------------------------------------

    /** A node's size: a file's text length, or the sum of a directory's
        entries' sizes. */
    ghost function Size(n: Node): nat
      reads this, Repr
      requires Valid() && n in tree.entries
      decreases tree.height - tree.Depth(n), 1, 0
    {
      if n.kind == File then n.content.count else SizeOfEntries(n, |tree.Children(n)|)
    }

    /** The sizes of a directory's first `k` entries, added up. */
    ghost function SizeOfEntries(n: Node, k: nat): nat
      reads this, Repr
      requires Valid() && n in tree.entries && k <= |tree.Children(n)|
      decreases tree.height - tree.Depth(n), 0, k
    {
      if k == 0 then 0
      else
        tree.EntryDepth(n, tree.Children(n)[k - 1]);
        SizeOfEntries(n, k - 1) + Size(tree.Children(n)[k - 1])
    }

    /** An entry is never larger than its directory. */
    lemma {:induction false} EntrySizeBounded(n: Node, i: nat, k: nat)
      requires Valid() && n in tree.entries && i < k <= |tree.Children(n)|
      ensures tree.Children(n)[i] in tree.entries
      ensures Size(tree.Children(n)[i]) <= SizeOfEntries(n, k)
      ensures Size(tree.Children(n)[i]) <= Size(n)
      decreases k
    {
      tree.EntryDepth(n, tree.Children(n)[i]);
      if k - 1 > i {
        EntrySizeBounded(n, i, k - 1);
      }
      if k < |tree.Children(n)| {
        SizesOfEntriesGrow(n, k, |tree.Children(n)|);
      }
    }

    lemma {:induction false} SizesOfEntriesGrow(n: Node, k: nat, m: nat)
      requires Valid() && n in tree.entries && k <= m <= |tree.Children(n)|
      ensures SizeOfEntries(n, k) <= SizeOfEntries(n, m)
      decreases m
    {
      if k < m {
        SizesOfEntriesGrow(n, k, m - 1);
      }
    }

    /** `getSize`: a file's length, or the sum over a directory's entries. */
    method GetSize(n: Node) returns (size: nat)
      requires Valid() && n in tree.entries
      ensures size == Size(n)
      decreases tree.height - tree.Depth(n)
    {
      if n.kind == File {
        size := n.FileSize();
        return;
      }
      var totalSize := 0;
      for i := 0 to |n.children|
        invariant totalSize == SizeOfEntries(n, i)
      {
        tree.EntryDepth(n, n.children[i]);
        var s := GetSize(n.children[i]);
        totalSize := totalSize + s;
      }
      size := totalSize;
    }

    // ------------------------------------------------------------------
    // find
    // ------------------------------------------------------------------

    /** The check `findRecursive` makes of each node it visits: report the
        node's path when it has the searched name. */
    method ReportIfNamed(n: Node, nameToFind: string, foundPaths: seq<string>)
      returns (found: seq<string>)
      requires Valid() && n in tree.entries
      ensures found == foundPaths + tree.PathsOf(if tree.Name(n) == nameToFind then [n] else [])
    {
      found := foundPaths;
      if n.name == nameToFind {
        var p := GetPathOf(n);
        found := found + [p];
      }
    }

    /** `findRecursive`: appends to `foundPaths` the paths of what `Found`
        reports. */
    method FindRecursive(currentDir: Node, nameToFind: string, foundPaths: seq<string>)
      returns (found: seq<string>)
      requires Valid() && currentDir in tree.entries
      ensures found == foundPaths + tree.PathsOf(tree.Found(currentDir, nameToFind))
      decreases tree.height - tree.Depth(currentDir), 1
    {
      ghost var head: seq<Node> := if tree.Name(currentDir) == nameToFind then [currentDir] else [];
      found := ReportIfNamed(currentDir, nameToFind, foundPaths);
      var children := currentDir.children;
      for i := 0 to |children|
        invariant found == foundPaths + tree.PathsOf(head + tree.FoundInEntries(currentDir, nameToFind, i))
      {
        ghost var reported := found;
        found := SearchEntry(currentDir, i, nameToFind, found);
        tree.SearchStep(currentDir, nameToFind, i, head, foundPaths, reported, found);
      }
    }

    /** One turn of the loop in `findRecursive`: report entry `i` if it has
        the name, then search below it if it is a directory. */
    method SearchEntry(currentDir: Node, i: nat, nameToFind: string, foundPaths: seq<string>)
      returns (found: seq<string>)
      requires Valid() && currentDir in tree.entries && i < |tree.Children(currentDir)|
      ensures found == foundPaths + tree.PathsOf(tree.FoundAtEntry(currentDir, nameToFind, i))
      decreases tree.height - tree.Depth(currentDir), 0
    {
      var child := currentDir.children[i];
      tree.EntryDepth(currentDir, child);
      ghost var own: seq<Node> := if tree.Name(child) == nameToFind then [child] else [];
      found := ReportIfNamed(child, nameToFind, foundPaths);
      ghost var below: seq<Node> := [];
      if child.kind == Directory {
        found := FindRecursive(child, nameToFind, found);
        below := tree.Found(child, nameToFind);
      }
      tree.PathsOfAppend(own, below);
      assert tree.FoundAtEntry(currentDir, nameToFind, i) == own + below;
      Associative(foundPaths, tree.PathsOf(own), tree.PathsOf(below));
    }

    /** `find`: the paths of every node named `name` the search from the root
        reports. */
    method Find(name: string) returns (found: seq<string>)
      requires Valid()
      ensures found == tree.PathsOf(tree.Found(root, name))
    {
      found := FindRecursive(root, name, []);
    }

    // ------------------------------------------------------------------
    // mkdir and createFile
    // ------------------------------------------------------------------

    /** Where `mkdir path` or `createFile path` puts the new node: the parent
        directory of the path, provided the base name is a proper name and the
        parent has no entry of that name yet. */
    ghost function CreateTarget(path: string): (r: Result<Node, Error>)
      reads this
      requires TreeValid()
      ensures r.Ok? ==> r.value in tree.entries && r.value.kind == Directory
      ensures r.Ok? ==> IsEntryName(BaseName(path)) && tree.Lookup(r.value, BaseName(path)) == null
    {
      var name := BaseName(path);
      var parent := tree.ParentDirectory(currentDirectory, path);
      if !IsEntryName(name) then Err(InvalidName)
      else if parent == null then Err(ParentNotFound)
      else if tree.Lookup(parent, name) != null then Err(AlreadyExists)
      else Ok(parent)
    }

    /** What `mkdir path` or `createFile path` may change besides the manager
        and the new node: the directory the new node goes into. */
    ghost function CreateFrame(path: string): set<object>
      reads this
      requires TreeValid()
    {
      if CreateTarget(path).Ok? then {CreateTarget(path).value} else {}
    }

    /** The invariant holds again once a new leaf `c` hangs below `d`: the
        nodes other than `d` and `c` kept the fields `t0` records, `d` gained
        `c` as its last entry, and `tree` and `Repr` took `c` in. */
    lemma AddedInvariant(t0: Tree, r0: set<object>, d: Node, c: Node)
      requires t0.Valid() && t0.root == root && t0.entries.Keys <= r0
      requires currentDirectory in t0.entries && currentDirectory.kind == Directory
      requires d in t0.entries && d.kind == Directory && c !in r0
      requires c.kind == File <==> c.content != null
      requires c.content != null ==> c.content.Valid()
      requires t0.Named() && Tree.Spellable(c.name) && t0.Lookup(d, c.name) == null
      requires forall n {:trigger n.name} :: n in t0.entries ==> n.name == t0.Name(n)
      requires forall n {:trigger n.parent} :: n in t0.entries ==> n.parent == t0.Parent(n)
      requires forall n {:trigger n.children} :: n in t0.entries && n != d ==> n.children == t0.Children(n)
      requires forall n {:trigger n.content} :: n in t0.entries && n.content != null ==> n.content in r0 && n.content.Valid()
      requires d.children == t0.Children(d) + [c] && c.parent == d && c.children == []
      requires tree == t0.Added(d, c, c.name)
      requires Repr == r0 + {c} + (if c.content != null then {c.content} else {})
      ensures Valid()
    {
      t0.AddedFields(d, c, c.name);
      t0.AddedValid(d, c, c.name);
      t0.AddedNamed(d, c, c.name);
    }

    /** `parentDir.addChild(c)` for a node `c` the manager has not seen yet,
        whose name `parentDir` does not have: the manager takes `c` in. */
    method AddEntry(d: Node, c: Node, now: int)
      requires Valid() && d in tree.entries && d.kind == Directory
      requires c !in Repr && c.parent == d && c.children == []
      requires c.kind == File <==> c.content != null
      requires c.content != null ==> c.content !in Repr && c.content.Valid()
      requires Tree.Spellable(c.name) && tree.Lookup(d, c.name) == null
      modifies this, d, c
      ensures Valid()
      ensures tree == old(tree).Added(d, c, c.name)
      ensures Repr == old(Repr) + {c} + (if c.content != null then {c.content} else {})
      ensures root == old(root) && currentDirectory == old(currentDirectory)
      ensures d.updatedAt == now
      ensures c.name == old(c.name) && c.updatedAt == old(c.updatedAt)
      ensures c.content != null ==> c.content.Valid() && c.content.Contents() == old(c.content.Contents())
    {
      ghost var t0, r0 := tree, Repr;
      LookupMirror(d, c.name);
      d.AddChild(c, now);
      tree := t0.Added(d, c, c.name);
      Repr := Repr + {c} + (if c.content != null then {c.content} else {});
      AddedInvariant(t0, r0, d, c);
    }

    /** `mkdir`: a new empty directory named by the base name of `path` in
        the directory `CreateTarget(path)` names, or the reason why not. */
    method Mkdir(path: string, now: int) returns (r: Outcome<Error>)
      requires Valid()
      modifies this, CreateFrame(path)
      ensures Valid()
      ensures root == old(root) && currentDirectory == old(currentDirectory)
      ensures old(CreateTarget(path)).Err? ==>
                r == Fail(old(CreateTarget(path)).error) && tree == old(tree) && Repr == old(Repr)
      ensures old(CreateTarget(path)).Ok? ==> r == Pass
      ensures old(CreateTarget(path)).Ok? ==>
                var d := old(CreateTarget(path)).value;
                var c := tree.Lookup(d, BaseName(path));
                && c != null && fresh(c) && c !in old(tree.entries)
                && c.kind == Directory && c.createdAt == now && c.updatedAt == now && d.updatedAt == now
                && tree == old(tree).Added(d, c, BaseName(path))
    {
      var dirName := GetBaseNameFromPath(path);
      var parentDir := GetParentDirectoryFromPath(path);
      if |dirName| == 0 || dirName == "." || dirName == ".." {
        return Fail(InvalidName);
      }
      if parentDir == null {
        return Fail(ParentNotFound);
      }
      LookupMirror(parentDir, dirName);
      var existing := parentDir.FindChild(dirName);
      if existing != null {
        return Fail(AlreadyExists);
      }
      ghost var t0 := tree;
      var newDir := new Node.DirectoryNode(dirName, parentDir, now);
      AddEntry(parentDir, newDir, now);
      t0.AddedValid(parentDir, newDir, dirName);
      return Pass;
    }

    /** `createFile`: a new file named by the base name of `path`, holding
        `content` when there is one (and nothing otherwise), in the directory
        `CreateTarget(path)` names; or the reason why not. */
    method CreateFile(path: string, content: Option<string>, now: int) returns (r: Outcome<Error>)
      requires Valid()
      modifies this, CreateFrame(path)
      ensures Valid()
      ensures root == old(root) && currentDirectory == old(currentDirectory)
      ensures old(CreateTarget(path)).Err? ==>
                r == Fail(old(CreateTarget(path)).error) && tree == old(tree) && Repr == old(Repr)
      ensures old(CreateTarget(path)).Ok? ==> r == Pass
      ensures old(CreateTarget(path)).Ok? ==>
                var d := old(CreateTarget(path)).value;
                var c := tree.Lookup(d, BaseName(path));
                && c != null && fresh(c) && c !in old(tree.entries)
                && c.kind == File && c.content != null && c.content.Valid()
                && c.content.Contents() == (if content.Some? then content.value else "")
                && c.createdAt == now && c.updatedAt == now && d.updatedAt == now
                && tree == old(tree).Added(d, c, BaseName(path))
    {
      var fileName := GetBaseNameFromPath(path);
      var parentDir := GetParentDirectoryFromPath(path);
      if |fileName| == 0 || fileName == "." || fileName == ".." {
        return Fail(InvalidName);
      }
      if parentDir == null {
        return Fail(ParentNotFound);
      }
      LookupMirror(parentDir, fileName);
      var existing := parentDir.FindChild(fileName);
      if existing != null {
        return Fail(AlreadyExists);
      }
      ghost var t0 := tree;
      var newFile := NewFile(fileName, parentDir, content, now);
      AddEntry(parentDir, newFile, now);
      t0.AddedValid(parentDir, newFile, fileName);
      return Pass;
    }

    /** What `mkdir path` or `createFile path` creates, `getNodeByPath(path)`
        finds afterwards, for a path that does not end in '/'. */
    lemma CreatedResolves(path: string, c: Node)
      requires TreeValid() && CreateTarget(path).Ok?
      requires path != "" && path[|path| - 1] != '/'
      requires c !in tree.entries && (c.kind == File <==> c.content != null)
      ensures var t := tree.Added(CreateTarget(path).value, c, BaseName(path));
              t.Valid() && currentDirectory in t.entries && t.Resolve(currentDirectory, path) == c
    {
      tree.AddedResolves(currentDirectory, path, c);
    }

    /** `new FileNode(name, parent)` followed, when there is content, by
        `setContent(content)`. */
    static method NewFile(name: string, parent: Node, content: Option<string>, now: int) returns (f: Node)
      ensures fresh(f) && fresh(f.content) && f.content != null
      ensures f.name == name && f.parent == parent && f.kind == File && f.children == []
      ensures f.content.Valid() && f.content.Contents() == (if content.Some? then content.value else "")
      ensures f.createdAt == now && f.updatedAt == now
    {
      f := new Node.FileNode(name, parent, now);
      if content.Some? {
        f.SetContent(content, now);
      }
    }

    // ------------------------------------------------------------------
    // rm
    // ------------------------------------------------------------------

    /** What `rm path` removes: the node the path designates, unless it is
        missing, the root or a directory with entries, and provided its
        parent still has an entry of its name. */
    ghost function RmCheck(path: string): (r: Result<Node, Error>)
      reads this
      requires TreeValid()
      ensures r.Ok? ==> r.value in tree.entries && r.value != root
      ensures r.Ok? ==> tree.Lookup(tree.Parent(r.value), tree.Name(r.value)) != null
      ensures r.Ok? && r.value.kind == Directory ==> tree.Children(r.value) == []
    {
      var n := tree.Resolve(currentDirectory, path);
      if n == null then Err(NotFound)
      else if n == root then Err(CannotRemoveRoot)
      else if n.kind == Directory && tree.Children(n) != [] then Err(DirectoryNotEmpty)
      else if tree.Lookup(tree.Parent(n), tree.Name(n)) == null then Err(RemoveFailed)
      else Ok(n)
    }

    /** What `rm path` may change besides the manager: the parent of the node
        the path designates, when the checks before `removeChild` pass (a
        `removeChild` that finds no entry leaves that parent as it was). */
    ghost function RmFrame(path: string): set<object>
      reads this
      requires TreeValid()
    {
      var n := tree.Resolve(currentDirectory, path);
      var check := RmCheck(path);
      if check.Ok? || check == Err(RemoveFailed) then {tree.Parent(n)} else {}
    }

    /** The invariant holds again once `d` drops its entry named `name`:
        every other node kept the fields `t0` records, and `tree` records
        the drop. */
    lemma DroppedInvariant(t0: Tree, d: Node, name: string)
      requires t0.Valid() && t0.root == root && t0.entries.Keys <= Repr
      requires currentDirectory in t0.entries && currentDirectory.kind == Directory
      requires d in t0.entries
      requires forall n {:trigger n.name} :: n in t0.entries ==> n.name == t0.Name(n)
      requires forall n {:trigger n.parent} :: n in t0.entries ==> n.parent == t0.Parent(n)
      requires forall n {:trigger n.children} :: n in t0.entries && n != d ==> n.children == t0.Children(n)
      requires forall n {:trigger n.content} :: n in t0.entries && n.content != null ==> n.content in Repr && n.content.Valid()
      requires t0.Named() && d.children == t0.Without(t0.Children(d), name)
      requires tree == t0.Unlinked(d, name)
      ensures Valid()
    {
      t0.UnlinkedFields(d, name);
      t0.UnlinkedValid(d, name);
      t0.UnlinkedNamed(d, name);
    }

    /** `parent.removeChild(name)`: the first entry of `d` named `name`, if
        any, leaves the tree. */
    method DropEntry(d: Node, name: string, now: int) returns (removed: bool)
      requires Valid() && d in tree.entries && d.kind == Directory
      modifies this, d
      ensures Valid()
      ensures root == old(root) && currentDirectory == old(currentDirectory) && Repr == old(Repr)
      ensures removed <==> old(tree.Lookup(d, name)) != null
      ensures removed ==> tree == old(tree).Unlinked(d, name) && d.updatedAt == now
      ensures !removed ==> tree == old(tree) && unchanged(d)
    {
      ghost var t0 := tree;
      LookupMirror(d, name);
      KidsMirror(d.children, name);
      removed := d.RemoveChild(name, now);
      if !removed {
        t0.UnlinkedNothing(d, name);
      }
      tree := t0.Unlinked(d, name);
      DroppedInvariant(t0, d, name);
    }

    /** `rm`: removes `RmCheck(path)` from its parent's entries, or reports
        why not. The parent drops its first entry of the node's name. */
    method Rm(path: string, now: int) returns (r: Outcome<Error>)
      requires Valid()
      modifies this, RmFrame(path)
      ensures Valid()
      ensures root == old(root) && currentDirectory == old(currentDirectory) && Repr == old(Repr)
      ensures old(RmCheck(path)).Err? ==>
                r == Fail(old(RmCheck(path)).error) && tree == old(tree) && unchanged(old(RmFrame(path)))
      ensures old(RmCheck(path)).Ok? ==> r == Pass
      ensures old(RmCheck(path)).Ok? ==>
                var n := old(RmCheck(path)).value;
                && tree == old(tree).Unlinked(old(tree).Parent(n), old(tree).Name(n))
                && old(tree).Parent(n).updatedAt == now
    {
      var nodeToRemove := GetNodeByPath(path);
      if nodeToRemove == null {
        return Fail(NotFound);
      }
      if nodeToRemove == root {
        return Fail(CannotRemoveRoot);
      }
      var parent := nodeToRemove.parent;
      if nodeToRemove.kind == Directory {
        var empty := nodeToRemove.IsEmpty();
        if !empty {
          return Fail(DirectoryNotEmpty);
        }
      }
      var success := DropEntry(parent, nodeToRemove.name, now);
      if success {
        return Pass;
      } else {
        return Fail(RemoveFailed);
      }
    }

    /** After `rm path` has removed a node that hung from the root, its
        absolute path (what `pwd` printed for it) no longer resolves. */
    lemma RemovedPathGone(path: string)
      requires TreeValid() && RmCheck(path).Ok? && tree.Attached(RmCheck(path).value)
      ensures var n := RmCheck(path).value;
              var t := tree.Unlinked(tree.Parent(n), tree.Name(n));
              t.Valid() && currentDirectory in t.entries && t.Resolve(currentDirectory, tree.PathOf(n)) == null
    {
      tree.RemovedUnresolvable(currentDirectory, RmCheck(path).value);
    }

    // ------------------------------------------------------------------
    // mv
    // ------------------------------------------------------------------

    /** Where `mv` puts `s` when asked for `destPath`: into an existing
        directory under its own name, or into the parent directory of
        `destPath` under its last component; either way the name must be free. */
    ghost function MoveDestination(s: Node, destPath: string): (r: Result<Move, Error>)
      reads this
      requires TreeValid()
      requires s in tree.entries
      ensures r.Ok? ==> r.value.src == s
      ensures r.Ok? ==> r.value.destDir in tree.entries && r.value.destDir.kind == Directory
      ensures r.Ok? ==> tree.Lookup(r.value.destDir, r.value.newName) == null
      ensures r.Ok? ==> r.value.newName == tree.Name(s) || Tree.Spellable(r.value.newName)
    {
      var target := tree.Resolve(currentDirectory, destPath);
      if target != null && target.kind == Directory then
        (if tree.Lookup(target, tree.Name(s)) != null then Err(DestinationExists)
         else Ok(Move(s, target, tree.Name(s))))
      else if target != null then Err(DestinationIsFile)
      else
        var d := tree.ParentDirectory(currentDirectory, destPath);
        if d == null then Err(ParentNotFound)
        else if tree.Lookup(d, BaseName(destPath)) != null then Err(DestinationExists)
        else
          tree.UnresolvedBaseName(currentDirectory, destPath);
          Ok(Move(s, d, BaseName(destPath)))
    }

    /** The move `mv` makes, or the first check it fails: the source must
        exist and not be the root, the destination must be free, and a
        directory may not go below itself. */
    ghost function MovePlan(sourcePath: string, destPath: string): (r: Result<Move, Error>)
      reads this
      requires TreeValid()
      ensures r.Ok? ==> r.value.src in tree.entries && r.value.src != root && r.value.src != r.value.destDir
      ensures r.Ok? ==> r.value.destDir in tree.entries && r.value.destDir.kind == Directory
      ensures r.Ok? ==> tree.Lookup(r.value.destDir, r.value.newName) == null
      ensures r.Ok? ==> Tree.Spellable(r.value.newName)
    {
      var s := tree.Resolve(currentDirectory, sourcePath);
      if s == null then Err(NotFound)
      else if s == root then Err(CannotMoveRoot)
      else
        var plan := MoveDestination(s, destPath);
        if plan.Ok? && s.kind == Directory && tree.Under(plan.value.destDir, s) then Err(CyclicMove)
        else plan
    }

    /** A planned move never puts a node below itself: a file has nothing
        below it, and for a directory the plan checks. */
    lemma PlannedMoveAcyclic(sourcePath: string, destPath: string)
      requires TreeValid() && MovePlan(sourcePath, destPath).Ok?
      ensures var m := MovePlan(sourcePath, destPath).value;
              !tree.Under(m.destDir, m.src)
    {
      var m := MovePlan(sourcePath, destPath).value;
      if tree.Under(m.destDir, m.src) {
        tree.UnderDirectory(m.destDir, m.src);
      }
    }

    /** The invariant holds again once `src`, nobody's entry, has joined the
        entries of `dest` as `newName`: every other node kept the fields `t0`
        records, and `tree` records the re-linking. */
    lemma RelinkedInvariant(t0: Tree, src: Node, dest: Node, newName: string)
      requires t0.Valid() && t0.root == root && t0.entries.Keys <= Repr
      requires currentDirectory in t0.entries && currentDirectory.kind == Directory
      requires src in t0.entries && src != root && dest in t0.entries && dest.kind == Directory
      requires forall m {:trigger src in t0.Children(m)} :: m in t0.entries ==> src !in t0.Children(m)
      requires !t0.Under(dest, src) && t0.Lookup(dest, newName) == null
      requires t0.Named() && Tree.Spellable(newName)
      requires forall n {:trigger n.name} :: n in t0.entries && n != src ==> n.name == t0.Name(n)
      requires forall n {:trigger n.parent} :: n in t0.entries && n != src ==> n.parent == t0.Parent(n)
      requires forall n {:trigger n.children} :: n in t0.entries && n != dest ==> n.children == t0.Children(n)
      requires forall n {:trigger n.content} :: n in t0.entries && n.content != null ==> n.content in Repr && n.content.Valid()
      requires src.name == newName && src.parent == dest && dest.children == t0.Children(dest) + [src]
      requires tree == t0.Relinked(src, dest, newName)
      ensures Valid()
    {
      t0.RelinkedFields(src, dest, newName);
      t0.RelinkedValid(src, dest, newName);
      t0.RelinkedNamed(src, dest, newName);
    }

    /** `setName(newName)`, `setParent(dest)`, `dest.addChild(src)` and
        `setUpdatedAt` for a node `src` that is nobody's entry. */
    method RelinkEntry(src: Node, dest: Node, newName: string, now: int)
      requires Valid() && src in tree.entries && src != root
      requires dest in tree.entries && dest.kind == Directory
      requires forall m {:trigger src in tree.Children(m)} :: m in tree.entries ==> src !in tree.Children(m)
      requires !tree.Under(dest, src) && tree.Lookup(dest, newName) == null && Tree.Spellable(newName)
      modifies this, src, dest
      ensures Valid()
      ensures root == old(root) && currentDirectory == old(currentDirectory) && Repr == old(Repr)
      ensures tree == old(tree).Relinked(src, dest, newName)
      ensures src.updatedAt == now && dest.updatedAt == now
    {
      ghost var t0 := tree;
      LookupMirror(dest, newName);
      assert src !in dest.children;
      src.SetName(newName, now);
      src.SetParent(dest);
      assert IndexOfName(dest.children, newName) < 0;
      dest.AddChild(src, now);
      src.SetUpdatedAt(now);
      tree := t0.Relinked(src, dest, newName);
      RelinkedInvariant(t0, src, dest, newName);
    }

    /** The re-linking at the end of `mv`: the old parent drops the name of
        `src`, then `src` joins the entries of `dest` as `newName`. */
    method MoveEntry(src: Node, dest: Node, newName: string, now: int)
      requires Valid() && src in tree.entries && src != root
      requires dest in tree.entries && dest.kind == Directory
      requires !tree.Under(dest, src) && tree.Lookup(dest, newName) == null && Tree.Spellable(newName)
      modifies this, src, src.parent, dest
      ensures Valid()
      ensures root == old(root) && currentDirectory == old(currentDirectory) && Repr == old(Repr)
      ensures tree == old(tree).Moved(src, dest, newName)
      ensures src.updatedAt == now && dest.updatedAt == now
      ensures var p := old(tree).Parent(src);
              old(tree).Lookup(p, old(tree).Name(src)) != null ==> p.updatedAt == now
      ensures var p := old(tree).Parent(src);
              old(tree).Lookup(p, old(tree).Name(src)) == null && p != dest ==> p.updatedAt == old(p.updatedAt)
    {
      ghost var t0 := tree;
      t0.UnlinkedForMove(src, dest, newName);
      var oldParent := src.parent;
      assert t0.Depth(src) == t0.Depth(oldParent) + 1;
      var removed := DropEntry(oldParent, src.name, now);
      if !removed {
        t0.UnlinkedNothing(oldParent, t0.Name(src));
      }
      RelinkEntry(src, dest, newName, now);
    }

    /** The loop of `mv` that walks up from the receiving directory `dest`
        towards the root looking for `src`: it meets `src` exactly when `dest`
        is `src` or lies below it. */
    method IsBelow(dest: Node, src: Node) returns (cyclic: bool)
      requires Valid() && dest in tree.entries && src != root
      ensures cyclic == tree.Under(dest, src)
    {
      var temp: Node? := dest;
      while temp != null && temp != root
        invariant temp != null && temp in tree.entries
        invariant tree.Under(dest, src) == tree.Under(temp, src)
        decreases tree.Depth(temp)
      {
        if temp == src {
          return true;
        }
        temp := temp.parent;
      }
      return false;
    }

    /** The part of `mv` that picks the receiving directory and new name. */
    method ChooseDestination(sourceNode: Node, destPath: string) returns (r: Result<Move, Error>)
      requires Valid() && sourceNode in tree.entries
      ensures r == MoveDestination(sourceNode, destPath)
    {
      var destNodeTarget := GetNodeByPath(destPath);
      if destNodeTarget != null && destNodeTarget.kind == Directory {
        var newName := sourceNode.name;
        LookupMirror(destNodeTarget, newName);
        var existing := destNodeTarget.FindChild(newName);
        if existing != null {
          return Err(DestinationExists);
        }
        return Ok(Move(sourceNode, destNodeTarget, newName));
      } else if destNodeTarget != null {
        return Err(DestinationIsFile);
      }
      var d := GetParentDirectoryFromPath(destPath);
      if d == null {
        return Err(ParentNotFound);
      }
      var newName := GetBaseNameFromPath(destPath);
      LookupMirror(d, newName);
      var existing := d.FindChild(newName);
      if existing != null {
        return Err(DestinationExists);
      }
      return Ok(Move(sourceNode, d, newName));
    }

    /** The checks `mv` makes before it changes anything, in the order it
        makes them. */
    method PlanMove(sourcePath: string, destPath: string) returns (r: Result<Move, Error>)
      requires Valid()
      ensures r == MovePlan(sourcePath, destPath)
    {
      var sourceNode := GetNodeByPath(sourcePath);
      if sourceNode == null {
        return Err(NotFound);
      }
      if sourceNode == root {
        return Err(CannotMoveRoot);
      }
      r := ChooseDestination(sourceNode, destPath);
      if r.Ok? && sourceNode.kind == Directory {
        var cyclic := IsBelow(r.value.destDir, sourceNode);
        if cyclic {
          return Err(CyclicMove);
        }
      }
    }

    /** What `mv` may change besides the manager: the node it moves, that
        node's parent and the receiving directory. */
    ghost function MoveFrame(sourcePath: string, destPath: string): set<object>
      reads this
      requires TreeValid()
    {
      var plan := MovePlan(sourcePath, destPath);
      if plan.Ok? then {plan.value.src, tree.Parent(plan.value.src), plan.value.destDir} else {}
    }

    /** `mv`: carries out `MovePlan(sourcePath, destPath)`, or reports why not. */
    method Mv(sourcePath: string, destPath: string, now: int) returns (r: Outcome<Error>)
      requires Valid()
      modifies this, MoveFrame(sourcePath, destPath)
      ensures Valid()
      ensures root == old(root) && currentDirectory == old(currentDirectory) && Repr == old(Repr)
      ensures old(MovePlan(sourcePath, destPath)).Err? ==>
                r == Fail(old(MovePlan(sourcePath, destPath)).error) && tree == old(tree)
      ensures old(MovePlan(sourcePath, destPath)).Ok? ==> r == Pass
      ensures old(MovePlan(sourcePath, destPath)).Ok? ==>
                var m := old(MovePlan(sourcePath, destPath)).value;
                && tree == old(tree).Moved(m.src, m.destDir, m.newName)
                && m.src.updatedAt == now && m.destDir.updatedAt == now
      ensures old(MovePlan(sourcePath, destPath)).Ok? ==>
                var m := old(MovePlan(sourcePath, destPath)).value;
                var p := old(tree).Parent(m.src);
                old(tree).Lookup(p, old(tree).Name(m.src)) != null ==> p.updatedAt == now
      ensures old(MovePlan(sourcePath, destPath)).Ok? ==>
                var m := old(MovePlan(sourcePath, destPath)).value;
                var p := old(tree).Parent(m.src);
                old(tree).Lookup(p, old(tree).Name(m.src)) == null && p != m.destDir ==>
                  p.updatedAt == old(p.updatedAt)
    {
      var plan := PlanMove(sourcePath, destPath);
      if plan.Err? {
        return Fail(plan.error);
      }
      PlannedMoveAcyclic(sourcePath, destPath);
      MoveEntry(plan.value.src, plan.value.destDir, plan.value.newName, now);
      return Pass;
    }
  }
}
