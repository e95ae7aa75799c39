/**
 * The entries of the namespace: `Node` with its two kinds, `DirectoryNode`
 * (an ordered child list whose names are unique) and `FileNode` (a content
 * buffer). Dafny has no class inheritance here, so one class carries the
 * fields of all three: `kind` says which it is, `children` is used by
 * directories only and `content` is non-null exactly for files.
 */
module Nodes {
  import opened Wrappers
  import opened Util
  import Paths

  datatype NodeType = Directory | File

  /** Position of the first node in `kids` named `name`, or -1 when none is. */
  function IndexOfName(kids: seq<Node>, name: string): (i: int)
    reads set k | k in kids
    ensures -1 <= i < |kids|
    ensures i >= 0 ==> kids[i].name == name
    ensures forall j :: 0 <= j < |kids| && (i < 0 || j < i) ==> kids[j].name != name
  {
    if kids == [] then -1
    else if kids[0].name == name then 0
    else
      var k := IndexOfName(kids[1..], name);
      if k < 0 then -1 else k + 1
  }

  /** The first node in `kids` named `name`, or null. */
  function ChildNamed(kids: seq<Node>, name: string): (c: Node?)
    reads set k | k in kids
    ensures c == null <==> forall j :: 0 <= j < |kids| ==> kids[j].name != name
    ensures c != null ==> c in kids && c.name == name
  {
    var i := IndexOfName(kids, name);
    if i < 0 then null else kids[i]
  }

  /** `kids` without its first node named `name` (unchanged when there is none). */
  function WithoutName(kids: seq<Node>, name: string): (r: seq<Node>)
    reads set k | k in kids
    ensures IndexOfName(kids, name) < 0 ==> r == kids
    ensures IndexOfName(kids, name) >= 0 ==> |r| == |kids| - 1
  {
    var i := IndexOfName(kids, name);
    if i < 0 then kids else kids[..i] + kids[i + 1..]
  }

  /** No two siblings share a name. */
  ghost predicate NamesUnique(kids: seq<Node>)
    reads set k | k in kids
  {
    forall i, j :: 0 <= i < j < |kids| ==> kids[i].name != kids[j].name
  }

  /** `IndexOfName` is pinned down by its contract: `name` at `i` and not before it. */
  lemma IndexOfNameIs(kids: seq<Node>, name: string, i: int)
    requires 0 <= i < |kids| && kids[i].name == name
    requires forall j :: 0 <= j < i ==> kids[j].name != name
    ensures IndexOfName(kids, name) == i
  {
  }

  /** Among siblings with unique names, looking a sibling's name up finds that sibling. */
  lemma FindsUniqueSibling(kids: seq<Node>, i: int)
    requires NamesUnique(kids) && 0 <= i < |kids|
    ensures IndexOfName(kids, kids[i].name) == i
    ensures ChildNamed(kids, kids[i].name) == kids[i]
  {
  }

  /** Appending a node under a name no sibling has keeps names unique, and the
      appended node is what a lookup of its name finds. */
  lemma AppendKeepsNamesUnique(kids: seq<Node>, c: Node)
    requires NamesUnique(kids) && IndexOfName(kids, c.name) < 0
    ensures NamesUnique(kids + [c])
    ensures IndexOfName(kids + [c], c.name) == |kids|
    ensures ChildNamed(kids + [c], c.name) == c
  {
    var r := kids + [c];
    forall i, j | 0 <= i < j < |r| ensures r[i].name != r[j].name {
      assert r[i] == kids[i];
    }
    forall j | 0 <= j < |kids| ensures r[j].name != c.name {
      assert r[j] == kids[j];
    }
    IndexOfNameIs(r, c.name, |kids|);
  }

  /** Removing the node named `name` keeps the others in order with unique names,
      and afterwards no sibling has that name. */
  lemma WithoutNameKeepsNamesUnique(kids: seq<Node>, name: string)
    requires NamesUnique(kids)
    ensures NamesUnique(WithoutName(kids, name))
    ensures IndexOfName(WithoutName(kids, name), name) < 0
    ensures forall c :: c in WithoutName(kids, name) ==> c in kids
  {
    var i := IndexOfName(kids, name);
    if i >= 0 {
      var r := WithoutName(kids, name);
      assert r == kids[..i] + kids[i + 1..];
      forall a, b | 0 <= a < b < |r| ensures r[a].name != r[b].name {
        var a' := if a < i then a else a + 1;
        var b' := if b < i then b else b + 1;
        assert r[a] == kids[a'] && r[b] == kids[b'];
      }
      forall j | 0 <= j < |r| ensures r[j].name != name {
        var j' := if j < i then j else j + 1;
        assert r[j] == kids[j'];
      }
    }
  }

  /** A parent chain from a node up to its top: each entry's parent is the next
      entry (and differs from it), and the last entry has no parent or is its
      own parent, as the root is. */
  ghost predicate IsParentChain(chain: seq<Node>)
    reads set k | k in chain
  {
    && |chain| >= 1
    && (forall i :: 0 <= i < |chain| - 1 ==> chain[i].parent == chain[i + 1] && chain[i + 1] != chain[i])
    && (chain[|chain| - 1].parent == null || chain[|chain| - 1].parent == chain[|chain| - 1])
  }

  /** The names of `nodes`, last node first. */
  ghost function ReversedNames(nodes: seq<Node>): (names: seq<string>)
    reads set k | k in nodes
    ensures |names| == |nodes|
    ensures forall i :: 0 <= i < |nodes| ==> names[i] == nodes[|nodes| - 1 - i].name
  {
    if nodes == [] then []
    else [nodes[|nodes| - 1].name] + ReversedNames(nodes[..|nodes| - 1])
  }

  class Node {
    var name: string
    var parent: Node?
    /** The creation time, fixed when the node is made (there is no setter). */
    const createdAt: int
    var updatedAt: int
    /** The node's type, fixed when it is made. */
    const kind: NodeType
    /** A directory's entries in insertion order; always empty for a file. */
    var children: seq<Node>
    /** A file's content buffer; null for a directory. */
    const content: MyStringBuilder?

    /** `new DirectoryNode(name, parent)` at clock reading `now`. */
    constructor DirectoryNode(name: string, parent: Node?, now: int)
      ensures this.name == name && this.parent == parent
      ensures kind == Directory && children == [] && content == null
      ensures createdAt == now && updatedAt == createdAt
    {
      this.name := name;
      this.parent := parent;
      kind := Directory;
      createdAt := now;
      updatedAt := now;
      children := [];
      content := null;
    }

    /** `new FileNode(name, parent)` at clock reading `now`: empty content. */
    constructor FileNode(name: string, parent: Node?, now: int)
      ensures this.name == name && this.parent == parent
      ensures kind == File && children == []
      ensures content != null && fresh(content) && fresh(content.value)
      ensures content.Valid() && content.Contents() == ""
      ensures createdAt == now && updatedAt == createdAt
    {
      this.name := name;
      this.parent := parent;
      kind := File;
      createdAt := now;
      updatedAt := now;
      children := [];
      content := new MyStringBuilder();
    }

    /** Renames the node and refreshes its modification time. */
    method SetName(name: string, now: int)
      modifies this
      ensures this.name == name && updatedAt == now
      ensures parent == old(parent) && children == old(children)
    {
      this.name := name;
      updatedAt := now;
    }

    /** Re-points the parent reference; timestamps are left alone. */
    method SetParent(parent: Node?)
      modifies this
      ensures this.parent == parent
      ensures name == old(name) && updatedAt == old(updatedAt)
      ensures children == old(children)
    {
      this.parent := parent;
    }

    method SetUpdatedAt(updatedAt: int)
      modifies this
      ensures this.updatedAt == updatedAt
      ensures name == old(name) && parent == old(parent)
      ensures children == old(children)
    {
      this.updatedAt := updatedAt;
    }

    /**
     * The absolute path of this node: "/" followed by the names on its parent
     * chain, outermost first, leaving out the top of the chain. `chain` is
     * that parent chain (ghost: it only bounds the walk). The walk stops at a
     * node without a parent or at one that is its own parent (the root).
     */
    method GetPath(ghost chain: seq<Node>) returns (path: string)
      requires IsParentChain(chain) && chain[0] == this
      ensures parent == null ==> path == "/"
      ensures parent != null && |chain| == 1 ==> path == if name == "/" then "/" else "/" + name
      ensures |chain| > 1 ==> path == Paths.Joined(ReversedNames(chain[..|chain| - 1]))
    {
      if parent == null {
        return "/";
      }
      var pathParts := ClimbNames(chain);
      if |pathParts| == 0 {
        return if name == "/" then "/" else "/" + name;
      }
      path := JoinPath(pathParts);
    }

    /** The climbing loop of `getPath`, stopping at a node without a parent or
        at one that is its own parent: the names below the top of the chain,
        outermost first. */
    method ClimbNames(ghost chain: seq<Node>) returns (pathParts: seq<string>)
      requires IsParentChain(chain) && chain[0] == this
      ensures pathParts == ReversedNames(chain[..|chain| - 1])
    {
      var current: Node := this;
      pathParts := [];
      ghost var k := 0;
      while current.parent != null && current.parent != current
        invariant 0 <= k < |chain| && current == chain[k]
        invariant pathParts == ReversedNames(chain[..k])
        invariant k < |chain| - 1 ==> current.parent == chain[k + 1] && chain[k + 1] != current
        decreases |chain| - k
      {
        assert (chain[..k + 1])[..k] == chain[..k];
        pathParts := [current.name] + pathParts;
        current := current.parent;
        k := k + 1;
      }
    }

    /** The building loop of `getPath`: "/" and a name appended for each name. */
    static method JoinPath(pathParts: seq<string>) returns (path: string)
      ensures path == Paths.Joined(pathParts)
    {
      var pathBuilder := new MyStringBuilder();
      for i := 0 to |pathParts|
        invariant fresh(pathBuilder) && fresh(pathBuilder.value) && pathBuilder.Valid()
        invariant pathBuilder.Contents() == Paths.Joined(pathParts[..i])
      {
        assert (pathParts[..i + 1])[..i] == pathParts[..i];
        pathBuilder.Append(Some("/"));
        pathBuilder.Append(Some(pathParts[i]));
      }
      assert pathParts[..|pathParts|] == pathParts;
      path := pathBuilder.ToString();
    }

    /** The loop of `getPath` as written, which climbs while the parent is not
        null, given at most `fuel` steps: `None` when they run out. It ends
        only on a chain whose top has no parent; when the top is its own
        parent, as the manager's root is, no number of steps is enough. */
    method GetPathPartsAsWritten(ghost chain: seq<Node>, fuel: nat) returns (parts: Option<seq<string>>)
      requires IsParentChain(chain) && chain[0] == this
      ensures parent != null && chain[|chain| - 1].parent == chain[|chain| - 1] ==> parts == None
      ensures chain[|chain| - 1].parent == null && |chain| - 1 <= fuel ==>
                parts == Some(ReversedNames(chain[..|chain| - 1]))
    {
      var current: Node? := this;
      var pathParts: seq<string> := [];
      var left: nat := fuel;
      ghost var k := 0;
      while current != null && current.parent != null
        invariant 0 <= k < |chain| && current == chain[k]
        invariant k < |chain| - 1 ==> current.parent == chain[k + 1]
        invariant chain[|chain| - 1].parent == null ==> left + k == fuel && pathParts == ReversedNames(chain[..k])
        decreases left
      {
        if left == 0 {
          return None;
        }
        assert (chain[..k + 1])[..k] == chain[..k];
        pathParts := [current.name] + pathParts;
        current := current.parent;
        left := left - 1;
        if k < |chain| - 1 {
          k := k + 1;
        }
      }
      return Some(pathParts);
    }

    /** `DirectoryNode.addChild`: a null child, or one whose name a child already
        has, is ignored; otherwise the child is appended, its parent set to this
        directory, and this directory's modification time refreshed. */
    method AddChild(child: Node?, now: int)
      requires kind == Directory
      modifies this, child
      ensures child == null || IndexOfName(old(children), child.name) >= 0 ==>
                children == old(children) && updatedAt == old(updatedAt) &&
                (child != null ==> child.parent == old(child.parent))
      ensures child != null && IndexOfName(old(children), child.name) < 0 ==>
                children == old(children) + [child] && child.parent == this && updatedAt == now
      ensures name == old(name)
      ensures this != child ==> parent == old(parent)
      ensures child != null && child != this ==>
                child.name == old(child.name) && child.children == old(child.children) &&
                child.updatedAt == old(child.updatedAt)
    {
      if child == null {
        return;
      }
      var existing := FindChild(child.name);
      if existing != null {
        return;
      }
      child.SetParent(this);
      children := children + [child];
      updatedAt := now;
    }

    /** `DirectoryNode.removeChild`: drops the first child named `name`, keeping the
        others in order; reports whether there was one. */
    method RemoveChild(name: string, now: int) returns (removed: bool)
      requires kind == Directory
      modifies this
      ensures removed <==> IndexOfName(old(children), name) >= 0
      ensures children == WithoutName(old(children), name)
      ensures updatedAt == if removed then now else old(updatedAt)
      ensures !removed ==> unchanged(this)
      ensures this.name == old(this.name) && parent == old(parent)
    {
      var kids := children;
      for i := 0 to |kids|
        invariant children == kids && updatedAt == old(updatedAt)
        invariant forall j :: 0 <= j < i ==> kids[j].name != name
      {
        if kids[i].name == name {
          IndexOfNameIs(kids, name, i);
          children := kids[..i] + kids[i + 1..];
          updatedAt := now;
          return true;
        }
      }
      return false;
    }

    /** `DirectoryNode.findChild`: the first child named `name`, or null. */
    method FindChild(name: string) returns (r: Node?)
      requires kind == Directory
      ensures r == ChildNamed(children, name)
    {
      for i := 0 to |children|
        invariant forall j :: 0 <= j < i ==> children[j].name != name
      {
        var child := children[i];
        if child.name == name {
          return child;
        }
      }
      return null;
    }

    method IsEmpty() returns (empty: bool)
      requires kind == Directory
      ensures empty <==> children == []
    {
      empty := |children| == 0;
    }

    /** The file's text. */
    method GetContent() returns (s: string)
      requires content != null && content.Valid()
      ensures s == content.Contents()
    {
      s := content.ToString();
    }

    /** Replaces the file's text with `newContent` (or "null") and refreshes the
        modification time. */
    method SetContent(newContent: Option<string>, now: int)
      requires content != null && content.Valid()
      modifies this, content, content.value
      ensures content.Valid() && content.Contents() == OrNull(newContent)
      ensures content.value == old(content.value) || fresh(content.value)
      ensures updatedAt == now
      ensures name == old(name) && parent == old(parent)
      ensures children == old(children)
    {
      content.Clear();
      content.Append(newContent);
      updatedAt := now;
    }

    /** Appends `additionalContent` (or "null") to the file's text and refreshes
        the modification time. */
    method AppendContent(additionalContent: Option<string>, now: int)
      requires content != null && content.Valid()
      modifies this, content, content.value
      ensures content.Valid() && content.Contents() == old(content.Contents()) + OrNull(additionalContent)
      ensures content.value == old(content.value) || fresh(content.value)
      ensures updatedAt == now
      ensures name == old(name) && parent == old(parent)
      ensures children == old(children)
    {
      content.Append(additionalContent);
      updatedAt := now;
    }

    /** `FileNode.getSize`: the length of the file's text. */
    method FileSize() returns (size: nat)
      requires content != null && content.Valid()
      ensures size == |content.Contents()|
    {
      size := content.Length();
    }
  }
}
