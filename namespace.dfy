/**
 * The namespace as a value: for every node the manager has created, its
 * name, its parent and its entries, together with the root and a depth map
 * that witnesses the parent links are acyclic. Path resolution, absolute
 * paths and the order in which `find` reports its results are functions of
 * this value; the manager keeps one in step with its nodes.
 */
module Namespace {
  import opened Nodes
  import opened Paths

  /** The fields of a node that rename, remove and move change. */
  datatype Entry = Entry(name: string, parent: Node, children: seq<Node>)

  datatype Tree = Tree(entries: map<Node, Entry>, root: Node, depth: map<Node, nat>, height: nat)
  {
    function Name(n: Node): string {
      if n in entries then entries[n].name else ""
    }

    function Parent(n: Node): Node {
      if n in entries then entries[n].parent else n
    }

    function Children(n: Node): seq<Node> {
      if n in entries then entries[n].children else []
    }

    function Depth(n: Node): nat {
      if n in depth then depth[n] else 0
    }

    /** Every node the tree mentions is one of its entries. */
    ghost predicate Closed() {
      && (forall n {:trigger Parent(n)} :: n in entries ==> Parent(n) in entries)
      && (forall n, c {:trigger c in Children(n)} :: n in entries && c in Children(n) ==> c in entries)
    }

    /** A file has content and no entries, and only directories are parents. */
    ghost predicate Kinds() {
      && (forall n {:trigger n.content} :: n in entries ==> (n.kind == File <==> n.content != null))
      && (forall n {:trigger Children(n)} :: n in entries && n.kind == File ==> Children(n) == [])
      && (forall n {:trigger Parent(n)} :: n in entries ==> Parent(n).kind == Directory)
    }

    /** Every entry of a directory points back to it; the root is nobody's entry. */
    ghost predicate Links() {
      forall n, c {:trigger c in Children(n)} :: n in entries && c in Children(n) ==> Parent(c) == n && c != root
    }

    /** No two entries of one directory share a name. */
    ghost predicate UniqueNames() {
      forall n, i, j {:trigger Name(Children(n)[i]), Name(Children(n)[j])} ::
        n in entries && 0 <= i < j < |Children(n)| ==> Name(Children(n)[i]) != Name(Children(n)[j])
    }

    /** Each node is one step further from the root than its parent, so
        following parents always reaches the root. */
    ghost predicate Depths() {
      && depth.Keys == entries.Keys && Depth(root) == 0
      && (forall n {:trigger Parent(n)} :: n in entries && n != root ==> Depth(n) == Depth(Parent(n)) + 1)
      && (forall n {:trigger Depth(n)} :: n in entries ==> Depth(n) <= height)
    }

    /** A tree of directories and files hanging from `root`, which is its own
        parent and is called "/". */
    ghost predicate Valid() {
      && root in entries && Parent(root) == root && Name(root) == "/" && root.kind == Directory
      && Closed() && Kinds() && Links() && UniqueNames() && Depths()
    }

    /** An entry of a directory is one level below it. */
    lemma EntryDepth(n: Node, c: Node)
      requires Valid() && n in entries && c in Children(n)
      ensures c in entries && Parent(c) == n && c != root && n.kind == Directory
      ensures Depth(c) == Depth(n) + 1 <= height
    {
    }

    // ------------------------------------------------------------------
    // Looking up an entry
    // ------------------------------------------------------------------

    /** Position of the first of `kids` named `name`, or -1 when none is. */
    function IndexOf(kids: seq<Node>, name: string): (i: int)
      ensures -1 <= i < |kids|
      ensures i >= 0 ==> Name(kids[i]) == name
      ensures forall j :: 0 <= j < |kids| && (i < 0 || j < i) ==> Name(kids[j]) != name
    {
      if kids == [] then -1
      else if Name(kids[0]) == name then 0
      else
        var k := IndexOf(kids[1..], name);
        if k < 0 then -1 else k + 1
    }

    /** `IndexOf` is pinned down by its contract: `name` at `i` and not before it. */
    lemma IndexOfIs(kids: seq<Node>, name: string, i: int)
      requires 0 <= i < |kids| && Name(kids[i]) == name
      requires forall j :: 0 <= j < i ==> Name(kids[j]) != name
      ensures IndexOf(kids, name) == i
    {
    }

    /** The entry of `d` named `name`, or null. */
    function Lookup(d: Node, name: string): (c: Node?)
      ensures c == null <==> forall j :: 0 <= j < |Children(d)| ==> Name(Children(d)[j]) != name
      ensures c != null ==> c in Children(d) && Name(c) == name
    {
      var i := IndexOf(Children(d), name);
      if i < 0 then null else Children(d)[i]
    }

    /** Looking up the name of an entry finds that entry. */
    lemma LookupEntry(d: Node, i: int)
      requires Valid() && d in entries && 0 <= i < |Children(d)|
      ensures IndexOf(Children(d), Name(Children(d)[i])) == i
      ensures Lookup(d, Name(Children(d)[i])) == Children(d)[i]
    {
    }

    // ------------------------------------------------------------------
    // Path resolution
    // ------------------------------------------------------------------

    /** One path segment applied to `cur`: "" and "." stay, ".." goes to the
        parent and any other name to the entry of that name; ".." and names
        fail (null) at a file. */
    function Step(cur: Node, seg: string): (r: Node?)
      requires Valid() && cur in entries
      ensures r != null ==> r in entries
    {
      if seg == "" || seg == "." then cur
      else if seg == ".." then (if cur.kind == Directory then Parent(cur) else null)
      else if cur.kind == Directory then Lookup(cur, seg)
      else null
    }

    /** The segments applied in order from `cur`; null once a step fails. */
    function Walk(cur: Node, segs: seq<string>): (r: Node?)
      requires Valid() && cur in entries
      ensures r != null ==> r in entries
      decreases |segs|
    {
      if segs == [] then cur
      else
        var next := Step(cur, segs[0]);
        if next == null then null else Walk(next, segs[1..])
    }

    /** The node a path designates: nothing for "", otherwise its segments
        walked from the root (leading '/') or from the current directory `cwd`. */
    function Resolve(cwd: Node, path: string): (r: Node?)
      requires Valid() && cwd in entries
      ensures r != null ==> r in entries
    {
      if path == "" then null
      else Walk(if path[0] == '/' then root else cwd, Segments(path))
    }

    /** Walking `a` and then `b` is walking `a + b`. */
    lemma {:induction false} WalkAppend(cur: Node, a: seq<string>, b: seq<string>)
      requires Valid() && cur in entries
      ensures Walk(cur, a + b) == (var m := Walk(cur, a); if m == null then null else Walk(m, b))
      decreases |a|
    {
      if a == [] {
        assert a + b == b;
      } else {
        assert (a + b)[0] == a[0] && (a + b)[1..] == a[1..] + b;
        var next := Step(cur, a[0]);
        if next != null {
          WalkAppend(next, a[1..], b);
        }
      }
    }

    /** A single segment walks one step. */
    lemma WalkOne(cur: Node, seg: string)
      requires Valid() && cur in entries
      ensures Walk(cur, [seg]) == Step(cur, seg)
    {
      assert [seg][1..] == [];
    }

    /** Empty segments go nowhere. */
    lemma {:induction false} WalkEmpties(cur: Node, segs: seq<string>)
      requires Valid() && cur in entries
      requires forall k :: 0 <= k < |segs| ==> segs[k] == ""
      ensures Walk(cur, segs) == cur
      decreases |segs|
    {
      if segs != [] {
        WalkEmpties(cur, segs[1..]);
      }
    }

    /** Java's split drops only trailing empty segments, which walk nowhere. */
    lemma WalkJavaSplit(cur: Node, s: string)
      requires Valid() && cur in entries
      ensures Walk(cur, JavaSplit(s)) == Walk(cur, Segments(s))
    {
      if '/' !in s {
        forall j | 0 <= j < |s| ensures s[j] != '/' {
          assert s[j] in s;
        }
        LastSlashIs(s, -1);
        assert Segments(s) == [s];
      } else {
        var p := Segments(s);
        var r := DropTrailingEmpty(p);
        assert p == r + p[|r|..];
        WalkAppend(cur, r, p[|r|..]);
        var m := Walk(cur, r);
        if m != null {
          WalkEmpties(m, p[|r|..]);
        }
      }
    }

    /** Inside a path, an empty or "." segment, and ".." once the walk is at
        the root, change nothing, while any other segment after the walk has
        reached a file makes it fail. */
    lemma SegmentNoOps(cur: Node, a: seq<string>, seg: string, b: seq<string>)
      requires Valid() && cur in entries
      ensures var m := Walk(cur, a);
              (seg == "" || seg == "." || (seg == ".." && m == root)) ==>
                Walk(cur, a + [seg] + b) == Walk(cur, a + b)
      ensures var m := Walk(cur, a);
              (m != null && m.kind == File && seg != "" && seg != ".") ==> Walk(cur, a + [seg] + b) == null
    {
      assert a + [seg] + b == a + ([seg] + b);
      WalkAppend(cur, a, [seg] + b);
      WalkAppend(cur, a, b);
      var m := Walk(cur, a);
      if m != null {
        assert ([seg] + b)[0] == seg && ([seg] + b)[1..] == b;
      }
    }

    /** How `getNodeByPath` finds the segments: drop one trailing '/', drop the
        leading '/' of an absolute path, and split what is left. Walking those
        pieces is walking the path's segments. */
    lemma ResolveBySplit(cwd: Node, path: string)
      requires Valid() && cwd in entries && path != "" && path != "/"
      ensures var p := StripTrailingSlash(path);
              && p != "" && (p[0] == '/' <==> path[0] == '/')
              && Resolve(cwd, path) == if path[0] == '/' then Walk(root, JavaSplit(p[1..]))
                                       else Walk(cwd, JavaSplit(p))
    {
      var p := StripTrailingSlash(path);
      var start := if path[0] == '/' then root else cwd;
      assert p[0] == path[0];
      if p != path {
        SegmentsWithTrailingSlash(p);
        WalkAppend(start, Segments(p), [""]);
        var m := Walk(start, Segments(p));
        if m != null {
          WalkEmpties(m, [""]);
        }
      }
      assert Walk(start, Segments(path)) == Walk(start, Segments(p));
      if path[0] == '/' {
        assert p == "/" + p[1..];
        SegmentsWithLeadingSlash(p[1..]);
        assert Walk(root, Segments(p)) == Walk(root, Segments(p[1..]));
        WalkJavaSplit(root, p[1..]);
      } else {
        WalkJavaSplit(cwd, p);
      }
    }

    /** "/" resolves to the root. */
    lemma ResolveRoot(cwd: Node)
      requires Valid() && cwd in entries
      ensures Resolve(cwd, "/") == root
    {
      assert "/"[..0] == "" && "/"[1..] == "";
      LastSlashIs("/", 0);
      assert Segments("/") == ["", ""];
      assert Walk(root, ["", ""]) == Walk(root, [""]);
    }

    /** The directory a new entry named by `path` goes into: none for "" and
        "/", `cwd` when there is no '/', the root when the only '/' leads,
        otherwise what the text before the last '/' resolves to, if that is a
        directory. A trailing '/' is not stripped first. */
    function ParentDirectory(cwd: Node, path: string): (d: Node?)
      requires Valid() && cwd in entries && cwd.kind == Directory
      ensures d != null ==> d in entries && d.kind == Directory
    {
      if path == "" || path == "/" then null
      else
        var i := LastSlash(path);
        if i < 0 then cwd
        else if i == 0 then root
        else
          var n := Resolve(cwd, path[..i]);
          if n != null && n.kind == Directory then n else null
    }

    /** A path that does not end in '/' and whose parent part names a
        directory resolves to that directory's entry of the base name (or to
        nothing when there is none): resolution and the parent/base-name split
        agree. */
    lemma ResolveViaParent(cwd: Node, path: string)
      requires Valid() && cwd in entries && cwd.kind == Directory
      requires path != "" && path[|path| - 1] != '/' && IsEntryName(BaseName(path))
      requires ParentDirectory(cwd, path) != null
      ensures Resolve(cwd, path) == Lookup(ParentDirectory(cwd, path), BaseName(path))
    {
      ResolveViaParentStep(cwd, path);
    }

    /** Without a trailing '/', resolving a path takes its parent part to a
        directory and then one step by the base name, whatever that name is. */
    lemma ResolveViaParentStep(cwd: Node, path: string)
      requires Valid() && cwd in entries && cwd.kind == Directory
      requires path != "" && path[|path| - 1] != '/'
      requires ParentDirectory(cwd, path) != null
      ensures Resolve(cwd, path) == Step(ParentDirectory(cwd, path), BaseName(path))
    {
      var name := BaseName(path);
      var i := LastSlash(path);
      assert name == path[i + 1..];
      if i < 0 {
        forall j | 0 <= j < |path| ensures path[j] != '/' {
        }
        assert Segments(path) == [path];
        WalkOne(cwd, path);
      } else if i == 0 {
        assert path == "/" + name;
        SegmentsWithLeadingSlash(name);
        LastSlashIs(name, -1);
        assert Segments(path) == ["", name];
        assert Walk(root, ["", name]) == Walk(root, [name]);
        WalkOne(root, name);
      } else {
        var prefix := path[..i];
        var start := if path[0] == '/' then root else cwd;
        assert prefix[0] == path[0];
        assert Segments(path) == Segments(prefix) + [name];
        WalkAppend(start, Segments(prefix), [name]);
        var d := Walk(start, Segments(prefix));
        if d != null {
          WalkOne(d, name);
        }
      }
    }

    /** A path that resolves to nothing although its parent part names a
        directory ends in a name the path syntax can spell back: a trailing
        '/', "", "." and ".." would all have resolved. */
    lemma UnresolvedBaseName(cwd: Node, path: string)
      requires Valid() && cwd in entries && cwd.kind == Directory
      requires ParentDirectory(cwd, path) != null && Resolve(cwd, path) == null
      ensures Spellable(BaseName(path))
    {
      var d := ParentDirectory(cwd, path);
      if path[|path| - 1] == '/' {
        var q := path[..|path| - 1];
        assert path == q + "/";
        LastSlashIs(path, |path| - 1);
        assert q[0] == path[0];
        assert Resolve(cwd, q) == d;
        SegmentsWithTrailingSlash(q);
        WalkOne(d, "");
        WalkAppend(if path[0] == '/' then root else cwd, Segments(q), [""]);
        assert false;
      }
      ResolveViaParentStep(cwd, path);
    }

    // ------------------------------------------------------------------
    // Absolute paths
    // ------------------------------------------------------------------

    /** The names on the way from the root down to `n`, outermost first. */
    function NamesFromRoot(n: Node): (names: seq<string>)
      requires Valid() && n in entries
      ensures |names| == Depth(n)
      decreases Depth(n)
    {
      if n == root then [] else NamesFromRoot(Parent(n)) + [Name(n)]
    }

    /** The absolute path of `n`: "/" for the root, otherwise "/" before each
        name from just below the root down to `n`. */
    function PathOf(n: Node): (p: string)
      requires Valid() && n in entries
      ensures p != ""
    {
      if n == root then "/" else Joined(NamesFromRoot(n))
    }

    /** `n`, its parent, and so on up to the root. */
    function AncestorChain(n: Node): (chain: seq<Node>)
      requires Valid() && n in entries
      ensures |chain| == Depth(n) + 1 && chain[0] == n && chain[|chain| - 1] == root
      ensures forall k :: 0 <= k < |chain| ==> chain[k] in entries
      ensures forall k :: 0 <= k < |chain| - 1 ==> Parent(chain[k]) == chain[k + 1] != chain[k]
      decreases Depth(n)
    {
      if n == root then [root] else [n] + AncestorChain(Parent(n))
    }

    /** The names from the root down to `n` are the names on its parent
        chain read from the top, the root left out. */
    lemma {:induction false} ChainNames(n: Node)
      requires Valid() && n in entries
      ensures forall i :: 0 <= i < Depth(n) ==> NamesFromRoot(n)[i] == Name(AncestorChain(n)[Depth(n) - 1 - i])
      decreases Depth(n)
    {
      if n != root {
        var p := Parent(n);
        ChainNames(p);
        var chain, up := AncestorChain(n), AncestorChain(p);
        var names, above := NamesFromRoot(n), NamesFromRoot(p);
        assert chain == [n] + up;
        forall i | 0 <= i < Depth(n)
          ensures names[i] == Name(chain[Depth(n) - 1 - i])
        {
          if i < Depth(p) {
            assert names[i] == above[i];
          }
        }
      }
    }

    /** A name the path syntax can spell back: an entry name without '/'. */
    static predicate Spellable(name: string) {
      IsEntryName(name) && '/' !in name
    }

    /** Every node but the root has a name the path syntax can spell back. */
    ghost predicate Named() {
      forall n {:trigger Spellable(Name(n))} :: n in entries && n != root ==> Spellable(Name(n))
    }

    /** `n` hangs from the root: each node on the way is an entry of its
        parent, under a spellable name. */
    ghost predicate Attached(n: Node)
      requires Valid() && n in entries
      decreases Depth(n)
    {
      n == root || (n in Children(Parent(n)) && Spellable(Name(n)) && Attached(Parent(n)))
    }

    lemma {:induction false} WalkNamesFromRoot(n: Node)
      requires Valid() && n in entries && Attached(n)
      ensures Walk(root, NamesFromRoot(n)) == n
      ensures forall k :: 0 <= k < |NamesFromRoot(n)| ==> '/' !in NamesFromRoot(n)[k]
      decreases Depth(n)
    {
      if n != root {
        var p := Parent(n);
        WalkNamesFromRoot(p);
        WalkAppend(root, NamesFromRoot(p), [Name(n)]);
        WalkOne(p, Name(n));
        var i :| 0 <= i < |Children(p)| && Children(p)[i] == n;
        LookupEntry(p, i);
      }
    }

    /** Resolving the absolute path of an attached node gives back that node:
        `getNodeByPath` inverts `getPath`. */
    lemma ResolvePathOf(cwd: Node, n: Node)
      requires Valid() && cwd in entries && n in entries && Attached(n)
      ensures Resolve(cwd, PathOf(n)) == n
    {
      if n == root {
        ResolveRoot(cwd);
      } else {
        var names := NamesFromRoot(n);
        WalkNamesFromRoot(n);
        SegmentsOfJoined(names);
        JoinedStartsWithSlash(names);
        assert Walk(root, [""] + names) == Walk(root, names) by {
          assert ([""] + names)[1..] == names;
        }
      }
    }

    /** The absolute path of an attached directory followed by one more name
        resolves to that directory's entry of the name, or to nothing. */
    lemma ResolveBelow(cwd: Node, p: Node, name: string)
      requires Valid() && cwd in entries && p in entries && Attached(p) && p.kind == Directory
      requires Spellable(name)
      ensures Resolve(cwd, Joined(NamesFromRoot(p) + [name])) == Lookup(p, name)
    {
      var above := NamesFromRoot(p);
      var names := above + [name];
      WalkNamesFromRoot(p);
      forall k | 0 <= k < |names|
        ensures '/' !in names[k]
      {
        if k < |above| {
          assert names[k] == above[k];
        }
      }
      var path := Joined(names);
      SegmentsOfJoined(names);
      JoinedStartsWithSlash(names);
      assert Resolve(cwd, path) == Walk(root, [""] + names);
      assert ([""] + names)[1..] == names;
      assert Walk(root, [""] + names) == Walk(root, names);
      WalkAppend(root, above, [name]);
      WalkOne(p, name);
    }

    // ------------------------------------------------------------------
    // find
    // ------------------------------------------------------------------

    /** The nodes `findRecursive(d, name)` reports, in order: `d` itself if it
        has the name, then for each entry in turn the entry if it has the name,
        followed by what the search below it reports. */
    function Found(d: Node, name: string): (r: seq<Node>)
      requires Valid() && d in entries
      ensures forall k :: 0 <= k < |r| ==> r[k] in entries
      decreases height - Depth(d), 1, 0
    {
      (if Name(d) == name then [d] else []) + FoundInEntries(d, name, |Children(d)|)
    }

    /** What the search reports for the first `k` entries of `d`. */
    function FoundInEntries(d: Node, name: string, k: nat): (r: seq<Node>)
      requires Valid() && d in entries && k <= |Children(d)|
      ensures forall j :: 0 <= j < |r| ==> r[j] in entries
      decreases height - Depth(d), 0, k
    {
      if k == 0 then [] else FoundInEntries(d, name, k - 1) + FoundAtEntry(d, name, k - 1)
    }

    /** What the search reports for entry `i` of `d`: the entry if it has the
        name, then, for a directory, what the search below it reports. */
    function FoundAtEntry(d: Node, name: string, i: nat): (r: seq<Node>)
      requires Valid() && d in entries && i < |Children(d)|
      ensures forall j :: 0 <= j < |r| ==> r[j] in entries
      decreases height - Depth(d), 0, i
    {
      var c := Children(d)[i];
      EntryDepth(d, c);
      (if Name(c) == name then [c] else []) + (if c.kind == Directory then Found(c, name) else [])
    }

    /** Everything the search reports has the searched name. */
    lemma {:induction false} FoundHasName(d: Node, name: string)
      requires Valid() && d in entries
      ensures forall k :: 0 <= k < |Found(d, name)| ==> Name(Found(d, name)[k]) == name
      decreases height - Depth(d), 1, 0
    {
      FoundInEntriesHaveName(d, name, |Children(d)|);
    }

    lemma {:induction false} FoundInEntriesHaveName(d: Node, name: string, k: nat)
      requires Valid() && d in entries && k <= |Children(d)|
      ensures forall j :: 0 <= j < |FoundInEntries(d, name, k)| ==> Name(FoundInEntries(d, name, k)[j]) == name
      decreases height - Depth(d), 0, k
    {
      if k > 0 {
        var last := Children(d)[k - 1];
        EntryDepth(d, last);
        FoundInEntriesHaveName(d, name, k - 1);
        var below: seq<Node> := if last.kind == Directory then Found(last, name) else [];
        if last.kind == Directory {
          FoundHasName(last, name);
        }
        var own: seq<Node> := if Name(last) == name then [last] else [];
        assert FoundAtEntry(d, name, k - 1) == own + below;
        assert FoundInEntries(d, name, k) == FoundInEntries(d, name, k - 1) + (own + below);
      }
    }

    /** The search reports the first `k` entries before the later ones. */
    lemma {:induction false} FoundInEntriesPrefix(d: Node, name: string, k: nat, m: nat)
      requires Valid() && d in entries && k <= m <= |Children(d)|
      ensures FoundInEntries(d, name, k) <= FoundInEntries(d, name, m)
      decreases m
    {
      if k < m {
        FoundInEntriesPrefix(d, name, k, m - 1);
      }
    }

    /** An entry with the searched name is reported; a directory entry is
        reported twice in a row, once as an entry and once more as the first
        finding of the search below it. */
    lemma FindReportsEntry(d: Node, name: string, i: nat)
      requires Valid() && d in entries && i < |Children(d)| && Name(Children(d)[i]) == name
      ensures exists p :: 0 <= p < |Found(d, name)| && Found(d, name)[p] == Children(d)[i]
      ensures Children(d)[i].kind == Directory ==>
                exists p :: 0 <= p < |Found(d, name)| - 1 &&
                  Found(d, name)[p] == Children(d)[i] && Found(d, name)[p + 1] == Children(d)[i]
    {
      var c := Children(d)[i];
      EntryDepth(d, c);
      var head: seq<Node> := if Name(d) == name then [d] else [];
      var before := FoundInEntries(d, name, i);
      var upTo := FoundInEntries(d, name, i + 1);
      var below: seq<Node> := if c.kind == Directory then Found(c, name) else [];
      assert FoundAtEntry(d, name, i) == [c] + below;
      assert upTo == before + [c] + below;
      FoundInEntriesPrefix(d, name, i + 1, |Children(d)|);
      var f := Found(d, name);
      var p := |head| + |before|;
      assert f == head + FoundInEntries(d, name, |Children(d)|);
      assert f[p] == upTo[|before|] == c;
      if c.kind == Directory {
        assert below[0] == c;
        assert f[p + 1] == upTo[|before| + 1] == c;
      }
    }

    /** Following parents from a node below `c`, which is below `a`, meets `a`. */
    lemma {:induction false} UnderTransitive(n: Node, c: Node, a: Node)
      requires Valid() && n in entries && c in entries && Under(n, c) && Under(c, a)
      ensures Under(n, a)
      decreases Depth(n)
    {
      if n != c {
        UnderTransitive(Parent(n), c, a);
      }
    }

    /** A node has one ancestor at each depth. */
    lemma {:induction false} UnderUnique(n: Node, a: Node, b: Node)
      requires Valid() && n in entries && Under(n, a) && Under(n, b) && Depth(a) == Depth(b)
      ensures a == b
      decreases Depth(n)
    {
      if n != a && n != b {
        UnderUnique(Parent(n), a, b);
      }
    }

    /** Every node lies below the root. */
    lemma {:induction false} UnderRoot(n: Node)
      requires Valid() && n in entries
      ensures Under(n, root)
      decreases Depth(n)
    {
      if n != root {
        UnderRoot(Parent(n));
      }
    }

    /** An attached node strictly below `d` lies below one of the entries of `d`. */
    lemma {:induction false} EntryAbove(n: Node, d: Node) returns (j: nat)
      requires Valid() && n in entries && Attached(n) && Under(n, d) && n != d
      ensures j < |Children(d)| && Under(n, Children(d)[j])
      decreases Depth(n)
    {
      var p := Parent(n);
      if p == d {
        j :| 0 <= j < |Children(d)| && Children(d)[j] == n;
      } else {
        j := EntryAbove(p, d);
      }
    }

    /** Two places in the entries of a directory hold two different nodes. */
    lemma EntriesDistinct(d: Node, i: nat, j: nat)
      requires Valid() && d in entries && i < |Children(d)| && j < |Children(d)| && i != j
      ensures Children(d)[i] != Children(d)[j]
    {
      if i < j {
        assert Name(Children(d)[i]) != Name(Children(d)[j]);
      } else {
        assert Name(Children(d)[j]) != Name(Children(d)[i]);
      }
    }

    /** A node below entry `j` of `d` is below no other entry of `d`. */
    lemma NotUnderSibling(n: Node, d: Node, i: nat, j: nat)
      requires Valid() && n in entries && d in entries && i < |Children(d)| && j < |Children(d)| && i != j
      requires Under(n, Children(d)[j])
      ensures !Under(n, Children(d)[i])
    {
      EntryDepth(d, Children(d)[i]);
      EntryDepth(d, Children(d)[j]);
      EntriesDistinct(d, i, j);
      if Under(n, Children(d)[i]) {
        UnderUnique(n, Children(d)[i], Children(d)[j]);
        assert false;
      }
    }

    /** Everything the search below `d` reports lies below `d`. */
    lemma {:induction false} FoundBelow(d: Node, name: string)
      requires Valid() && d in entries
      ensures forall k :: 0 <= k < |Found(d, name)| ==> Under(Found(d, name)[k], d)
      decreases height - Depth(d), 1, 0
    {
      FoundInEntriesBelow(d, name, |Children(d)|);
    }

    /** What the search reports for the entries of `d` lies strictly below `d`. */
    lemma {:induction false} FoundInEntriesBelow(d: Node, name: string, k: nat)
      requires Valid() && d in entries && k <= |Children(d)|
      ensures forall j :: 0 <= j < |FoundInEntries(d, name, k)| ==>
                Under(FoundInEntries(d, name, k)[j], d) && Depth(FoundInEntries(d, name, k)[j]) > Depth(d)
      decreases height - Depth(d), 0, k
    {
      if k > 0 {
        FoundInEntriesBelow(d, name, k - 1);
        FoundAtEntryBelow(d, name, k - 1);
        var c := Children(d)[k - 1];
        EntryDepth(d, c);
        assert Under(c, d);
        var entry := FoundAtEntry(d, name, k - 1);
        forall j | 0 <= j < |entry|
          ensures Under(entry[j], d)
        {
          UnderTransitive(entry[j], c, d);
        }
      }
    }

    /** What the search reports for entry `i` of `d` lies below that entry. */
    lemma {:induction false} FoundAtEntryBelow(d: Node, name: string, i: nat)
      requires Valid() && d in entries && i < |Children(d)|
      ensures forall j :: 0 <= j < |FoundAtEntry(d, name, i)| ==> Under(FoundAtEntry(d, name, i)[j], Children(d)[i])
      decreases height - Depth(d), 0, i
    {
      var c := Children(d)[i];
      EntryDepth(d, c);
      if c.kind == Directory {
        FoundBelow(c, name);
      }
    }

    lemma FoundInEntriesOccurrences(d: Node, name: string, n: Node, k: nat)
      requires Valid() && d in entries && 0 < k <= |Children(d)|
      ensures Occurrences(FoundInEntries(d, name, k), n) ==
                Occurrences(FoundInEntries(d, name, k - 1), n) + Occurrences(FoundAtEntry(d, name, k - 1), n)
    {
      OccurrencesAppend(FoundInEntries(d, name, k - 1), FoundAtEntry(d, name, k - 1), n);
    }

    /** The search for entry `i` of `d` does not report a node that is not below that entry. */
    lemma FoundAtEntryAvoids(d: Node, name: string, i: nat, n: Node)
      requires Valid() && d in entries && i < |Children(d)| && n in entries && !Under(n, Children(d)[i])
      ensures Occurrences(FoundAtEntry(d, name, i), n) == 0
    {
      FoundAtEntryBelow(d, name, i);
      OccurrencesAbsent(FoundAtEntry(d, name, i), n);
    }

    /** With every name spellable, what the search below an attached node
        reports is attached. */
    lemma {:induction false} FoundAttached(d: Node, name: string)
      requires Valid() && Named() && d in entries && Attached(d)
      ensures forall k :: 0 <= k < |Found(d, name)| ==> Attached(Found(d, name)[k])
      decreases height - Depth(d), 1, 0
    {
      FoundInEntriesAttached(d, name, |Children(d)|);
    }

    lemma {:induction false} FoundInEntriesAttached(d: Node, name: string, k: nat)
      requires Valid() && Named() && d in entries && Attached(d) && k <= |Children(d)|
      ensures forall j :: 0 <= j < |FoundInEntries(d, name, k)| ==> Attached(FoundInEntries(d, name, k)[j])
      decreases height - Depth(d), 0, k
    {
      if k > 0 {
        FoundInEntriesAttached(d, name, k - 1);
        var c := Children(d)[k - 1];
        EntryDepth(d, c);
        assert Attached(c);
        if c.kind == Directory {
          FoundAttached(c, name);
        }
        assert FoundAtEntry(d, name, k - 1) ==
               (if Name(c) == name then [c] else []) + (if c.kind == Directory then Found(c, name) else []);
      }
    }

    /** The entries of `d` before entry `j`, the one `n` lies below, report
        no finding of `n`. */
    lemma {:induction false} FoundBeforeEntry(d: Node, name: string, n: Node, j: nat, k: nat)
      requires Valid() && d in entries && n in entries && k <= j < |Children(d)|
      requires Under(n, Children(d)[j])
      ensures Occurrences(FoundInEntries(d, name, k), n) == 0
      decreases k
    {
      if k == 0 {
        OccurrencesAbsent(FoundInEntries(d, name, k), n);
      } else {
        FoundBeforeEntry(d, name, n, j, k - 1);
        FoundInEntriesOccurrences(d, name, n, k);
        NotUnderSibling(n, d, k - 1, j);
        FoundAtEntryAvoids(d, name, k - 1, n);
      }
    }

    /** The entries of `d` after entry `j`, the one `n` lies below, report
        no finding of `n`. */
    lemma {:induction false} FoundAfterEntry(d: Node, name: string, n: Node, j: nat, m: nat, k: nat)
      requires Valid() && d in entries && n in entries && j < m <= k <= |Children(d)|
      requires Under(n, Children(d)[j])
      ensures Occurrences(FoundInEntries(d, name, k), n) == Occurrences(FoundInEntries(d, name, m), n)
      decreases k
    {
      if k > m {
        FoundAfterEntry(d, name, n, j, m, k - 1);
        FoundInEntriesOccurrences(d, name, n, k);
        NotUnderSibling(n, d, k - 1, j);
        FoundAtEntryAvoids(d, name, k - 1, n);
      }
    }

    /** How often the search below `d` reports an attached node `n` with the
        searched name: never unless `n` lies below `d`; once for `d` itself and
        for a file; twice for a directory strictly below `d`, once as an entry
        and once as the first finding of the search below it. */
    lemma {:induction false} FoundCount(d: Node, name: string, n: Node)
      requires Valid() && d in entries && n in entries && Attached(n) && Name(n) == name
      ensures Occurrences(Found(d, name), n) ==
                if !Under(n, d) then 0 else if n == d || n.kind == File then 1 else 2
      decreases height - Depth(d), 2
    {
      FoundOccurrences(d, name, n);
      if !Under(n, d) {
        FoundBelow(d, name);
        OccurrencesAbsent(Found(d, name), n);
      } else if n == d {
        FoundInEntriesBelow(d, name, |Children(d)|);
        OccurrencesAbsent(FoundInEntries(d, name, |Children(d)|), n);
      } else {
        FoundStrictlyBelow(d, name, n);
      }
    }

    /** The entries of `d` report a node `n` strictly below `d` as often as
        the entry `n` lies below does. */
    lemma {:induction false} FoundStrictlyBelow(d: Node, name: string, n: Node)
      requires Valid() && d in entries && n in entries && Attached(n) && Name(n) == name
      requires Under(n, d) && n != d
      ensures Occurrences(FoundInEntries(d, name, |Children(d)|), n) == if n.kind == File then 1 else 2
      decreases height - Depth(d), 1
    {
      var j := EntryAbove(n, d);
      FoundAfterEntry(d, name, n, j, j + 1, |Children(d)|);
      FoundBeforeEntry(d, name, n, j, j);
      FoundInEntriesOccurrences(d, name, n, j + 1);
      FoundAtEntryCount(d, name, n, j);
    }

    /** Entry `j` of `d`, which an attached node `n` with the searched name
        lies below, reports `n` once if it is a file and twice if it is a
        directory. */
    lemma {:induction false} FoundAtEntryCount(d: Node, name: string, n: Node, j: nat)
      requires Valid() && d in entries && n in entries && Attached(n) && Name(n) == name
      requires j < |Children(d)| && Under(n, Children(d)[j])
      ensures Occurrences(FoundAtEntry(d, name, j), n) == if n.kind == File then 1 else 2
      decreases height - Depth(d), 0
    {
      var c := Children(d)[j];
      EntryDepth(d, c);
      if n != c {
        UnderDirectory(n, c);
      }
      FoundAtEntryOccurrences(d, name, j, n);
      if c.kind == Directory {
        FoundCount(c, name, n);
      }
    }

    /** The search below `d` reports `d` itself, then what its entries report. */
    lemma FoundOccurrences(d: Node, name: string, n: Node)
      requires Valid() && d in entries
      ensures Occurrences(Found(d, name), n) ==
                (if Name(d) == name && d == n then 1 else 0) + Occurrences(FoundInEntries(d, name, |Children(d)|), n)
    {
      var own: seq<Node> := if Name(d) == name then [d] else [];
      OccurrencesAppend(own, FoundInEntries(d, name, |Children(d)|), n);
    }

    /** Entry `i` reports itself, then, for a directory, what the search below it reports. */
    lemma FoundAtEntryOccurrences(d: Node, name: string, i: nat, n: Node)
      requires Valid() && d in entries && i < |Children(d)|
      ensures Children(d)[i] in entries
      ensures var c := Children(d)[i];
              Occurrences(FoundAtEntry(d, name, i), n) ==
                (if Name(c) == name && c == n then 1 else 0) + (if c.kind == Directory then Occurrences(Found(c, name), n) else 0)
    {
      var c := Children(d)[i];
      EntryDepth(d, c);
      var mine: seq<Node> := if Name(c) == name then [c] else [];
      var below: seq<Node> := if c.kind == Directory then Found(c, name) else [];
      assert FoundAtEntry(d, name, i) == mine + below;
      OccurrencesAppend(mine, below, n);
    }

    /** `find` from the root reports exactly the attached nodes with the
        searched name: each file once, each directory other than the root
        twice, and the root once. */
    lemma FindReportsAll(name: string, n: Node)
      requires Valid() && Named() && n in entries
      ensures n in Found(root, name) <==> Attached(n) && Name(n) == name
      ensures Attached(n) && Name(n) == name ==>
                Occurrences(Found(root, name), n) == if n == root || n.kind == File then 1 else 2
    {
      FoundHasName(root, name);
      FoundAttached(root, name);
      if Attached(n) && Name(n) == name {
        UnderRoot(n);
        FoundCount(root, name, n);
        OccurrencesMultiset(Found(root, name), n);
      }
    }

    /** Each path `find` prints resolves back to the node it was printed for. */
    lemma FoundPathsResolve(cwd: Node, name: string)
      requires Valid() && Named() && cwd in entries
      ensures forall k :: 0 <= k < |Found(root, name)| ==>
                Resolve(cwd, PathsOf(Found(root, name))[k]) == Found(root, name)[k]
    {
      var f := Found(root, name);
      FoundAttached(root, name);
      forall k | 0 <= k < |f|
        ensures Resolve(cwd, PathsOf(f)[k]) == f[k]
      {
        ResolvePathOf(cwd, f[k]);
      }
    }

    /** The absolute paths of `ns`, in order. */
    function PathsOf(ns: seq<Node>): (r: seq<string>)
      requires Valid() && forall k :: 0 <= k < |ns| ==> ns[k] in entries
      ensures |r| == |ns| && forall k :: 0 <= k < |ns| ==> r[k] == PathOf(ns[k])
    {
      if ns == [] then [] else PathsOf(ns[..|ns| - 1]) + [PathOf(ns[|ns| - 1])]
    }

    lemma {:induction false} PathsOfAppend(a: seq<Node>, b: seq<Node>)
      requires Valid()
      requires forall k :: 0 <= k < |a| ==> a[k] in entries
      requires forall k :: 0 <= k < |b| ==> b[k] in entries
      ensures PathsOf(a + b) == PathsOf(a) + PathsOf(b)
      decreases |b|
    {
      if b == [] {
        assert a + b == a;
      } else {
        var front := b[..|b| - 1];
        var ab := a + b;
        assert ab[..|ab| - 1] == a + front;
        assert ab[|ab| - 1] == b[|b| - 1];
        PathsOfAppend(a, front);
      }
    }

    /** One turn of the loop in `findRecursive` extends what it has reported
        by what the search reports for the next entry. */
    lemma SearchStep(d: Node, name: string, i: nat, head: seq<Node>,
                     foundPaths: seq<string>, reported: seq<string>, found: seq<string>)
      requires Valid() && d in entries && i < |Children(d)|
      requires forall j :: 0 <= j < |head| ==> head[j] in entries
      requires reported == foundPaths + PathsOf(head + FoundInEntries(d, name, i))
      requires found == reported + PathsOf(FoundAtEntry(d, name, i))
      ensures found == foundPaths + PathsOf(head + FoundInEntries(d, name, i + 1))
    {
      var done, entry := FoundInEntries(d, name, i), FoundAtEntry(d, name, i);
      Associative(head, done, entry);
      PathsOfAppend(head + done, entry);
      Associative(foundPaths, PathsOf(head + done), PathsOf(entry));
    }

    // ------------------------------------------------------------------
    // Changes: adding, removing and moving an entry
    // ------------------------------------------------------------------

    /** The tree after the new node `c` is appended to the entries of `d`
        under `name`. */
    function Added(d: Node, c: Node, name: string): Tree
      requires d in entries && c !in entries
    {
      var level := Depth(d) + 1;
      Tree(entries[d := entries[d].(children := Children(d) + [c])][c := Entry(name, d, [])],
           root, depth[c := level], if level > height then level else height)
    }

    /** What adding changes: `d` gains `c` as its last entry, `c` is a leaf
        below `d`, and every other node is as it was. */
    lemma AddedFields(d: Node, c: Node, name: string)
      requires d in entries && c !in entries
      ensures var t := Added(d, c, name);
              && t.entries.Keys == entries.Keys + {c}
              && t.Name(c) == name && t.Parent(c) == d && t.Children(c) == [] && t.Depth(c) == Depth(d) + 1
              && t.Name(d) == Name(d) && t.Parent(d) == Parent(d) && t.Children(d) == Children(d) + [c]
              && (forall m {:trigger t.Name(m)} :: m in entries ==> t.Name(m) == Name(m))
              && (forall m {:trigger t.Parent(m)} :: m in entries ==> t.Parent(m) == Parent(m))
              && (forall m {:trigger t.Depth(m)} :: m in entries ==> t.Depth(m) == Depth(m))
              && (forall m {:trigger t.Children(m)} :: m in entries && m != d ==> t.Children(m) == Children(m))
              && (forall m {:trigger t.entries[m]} :: m in entries && m != d ==> t.entries[m] == entries[m])
    {
    }

    /** A tree `t` that has every node of this one plus the new leaf `c`
        below `d` is closed and linked when this one is. */
    lemma AddedLinks(t: Tree, d: Node, c: Node)
      requires root in entries && Closed() && Links() && d in entries && c !in entries
      requires t.root == root && t.entries.Keys == entries.Keys + {c}
      requires t.Parent(c) == d && t.Children(c) == [] && t.Children(d) == Children(d) + [c]
      requires forall m {:trigger t.Parent(m)} :: m in entries ==> t.Parent(m) == Parent(m)
      requires forall m {:trigger t.Children(m)} :: m in entries && m != d ==> t.Children(m) == Children(m)
      ensures t.Closed() && t.Links()
    {
      forall m, k | m in t.entries && k in t.Children(m)
        ensures k in t.entries && t.Parent(k) == m && k != root
      {
        if m != d {
          assert k in Children(m);
        } else if k != c {
          assert k in Children(d);
        }
      }
    }

    /** ... and has unique names when this one does and `c`'s name is new in `d`. */
    lemma AddedUniqueNames(t: Tree, d: Node, c: Node)
      requires Closed() && UniqueNames() && d in entries && c !in entries
      requires Lookup(d, t.Name(c)) == null
      requires t.entries.Keys == entries.Keys + {c}
      requires t.Children(c) == [] && t.Children(d) == Children(d) + [c]
      requires forall m {:trigger t.Name(m)} :: m in entries ==> t.Name(m) == Name(m)
      requires forall m {:trigger t.Children(m)} :: m in entries && m != d ==> t.Children(m) == Children(m)
      ensures t.UniqueNames()
    {
      forall m, i, j | m in t.entries && 0 <= i < j < |t.Children(m)|
        ensures t.Name(t.Children(m)[i]) != t.Name(t.Children(m)[j])
      {
        var kids := Children(m);
        assert kids[i] in kids;
        if m != d {
          assert kids[j] in kids;
        } else if j < |kids| {
          assert kids[j] in kids;
          assert t.Children(m)[i] == kids[i] && t.Children(m)[j] == kids[j];
        } else {
          assert t.Children(m)[i] == kids[i] && t.Children(m)[j] == c;
        }
      }
    }

    /** Adding a new node under a name `d` does not have yet keeps the tree a
        tree, makes the node the entry of `d` by that name, and changes no
        other node. */
    lemma AddedValid(d: Node, c: Node, name: string)
      requires Valid() && d in entries && d.kind == Directory && c !in entries
      requires c.kind == File <==> c.content != null
      requires Lookup(d, name) == null
      ensures var t := Added(d, c, name);
              && t.Valid() && t.entries.Keys == entries.Keys + {c}
              && t.Lookup(d, name) == c && t.Parent(c) == d && t.Children(c) == []
              && t.Children(d) == Children(d) + [c]
              && forall m :: m in entries && m != d ==> t.entries[m] == entries[m]
    {
      var t := Added(d, c, name);
      AddedFields(d, c, name);
      AddedUniqueNames(t, d, c);
      AddedLinks(t, d, c);
      assert t.Kinds() by {
        forall m | m in t.entries && m.kind == File
          ensures t.Children(m) == []
        {
        }
      }
      var kids := t.Children(d);
      forall j | 0 <= j < |Children(d)|
        ensures t.Name(kids[j]) != name
      {
        assert kids[j] == Children(d)[j] && kids[j] in Children(d);
      }
      t.IndexOfIs(kids, name, |Children(d)|);
    }

    /** Adding a node breaks no step: a step that found a node finds the same
        node afterwards. */
    lemma AddedKeepsStep(d: Node, c: Node, name: string, cur: Node, seg: string)
      requires Valid() && d in entries && d.kind == Directory && c !in entries
      requires c.kind == File <==> c.content != null
      requires Lookup(d, name) == null
      requires cur in entries && Step(cur, seg) != null
      ensures Added(d, c, name).Valid() && Added(d, c, name).Step(cur, seg) == Step(cur, seg)
    {
      var t := Added(d, c, name);
      AddedValid(d, c, name);
      AddedFields(d, c, name);
      if seg != "" && seg != "." && seg != ".." {
        var kids, i := Children(cur), IndexOf(Children(cur), seg);
        var now := t.Children(cur);
        assert forall j :: 0 <= j < |kids| ==> now[j] == kids[j] by {
          if cur == d {
            assert now == kids + [c];
          }
        }
        forall j | 0 <= j < i
          ensures t.Name(now[j]) != seg
        {
          assert kids[j] in kids;
        }
        assert kids[i] in kids;
        t.IndexOfIs(now, seg, i);
      }
    }

    /** ... and so no walk that found a node: every path keeps resolving to
        what it resolved to before. */
    lemma {:induction false} AddedKeepsWalk(d: Node, c: Node, name: string, cur: Node, segs: seq<string>)
      requires Valid() && d in entries && d.kind == Directory && c !in entries
      requires c.kind == File <==> c.content != null
      requires Lookup(d, name) == null
      requires cur in entries && Walk(cur, segs) != null
      ensures Added(d, c, name).Valid() && Added(d, c, name).Walk(cur, segs) == Walk(cur, segs)
      decreases |segs|
    {
      AddedValid(d, c, name);
      if segs != [] {
        AddedKeepsStep(d, c, name, cur, segs[0]);
        AddedKeepsWalk(d, c, name, Step(cur, segs[0]), segs[1..]);
      }
    }

    /** Creating `path` (no trailing '/') by adding `c` to the directory its
        parent part names, under its base name, makes `path` resolve to `c`:
        what `mkdir` and `createFile` create, `getNodeByPath` then finds. */
    lemma AddedResolves(cwd: Node, path: string, c: Node)
      requires Valid() && cwd in entries && cwd.kind == Directory
      requires path != "" && path[|path| - 1] != '/' && IsEntryName(BaseName(path))
      requires ParentDirectory(cwd, path) != null && c !in entries
      requires c.kind == File <==> c.content != null
      requires Lookup(ParentDirectory(cwd, path), BaseName(path)) == null
      ensures var t := Added(ParentDirectory(cwd, path), c, BaseName(path));
              t.Valid() && cwd in t.entries && t.Resolve(cwd, path) == c
    {
      var d, name := ParentDirectory(cwd, path), BaseName(path);
      var t := Added(d, c, name);
      AddedValid(d, c, name);
      AddedFields(d, c, name);
      var i := LastSlash(path);
      if i > 0 {
        var prefix := path[..i];
        AddedKeepsWalk(d, c, name, if prefix[0] == '/' then root else cwd, Segments(prefix));
      }
      assert t.ParentDirectory(cwd, path) == d;
      t.ResolveViaParent(cwd, path);
    }

    /** `kids` without the first of them named `name` (unchanged when none is). */
    function Without(kids: seq<Node>, name: string): (r: seq<Node>)
    {
      var i := IndexOf(kids, name);
      if i < 0 then kids else kids[..i] + kids[i + 1..]
    }

    /** The tree after `d` drops its entry named `name`; the dropped node keeps
        its own fields, parent link included. */
    function Unlinked(d: Node, name: string): Tree
      requires d in entries
    {
      Tree(entries[d := entries[d].(children := Without(Children(d), name))], root, depth, height)
    }

    /** Dropping the entry named `name` from the entries of `d` leaves the
        others in order with unique names, and none of them has that name. */
    lemma WithoutEntry(d: Node, name: string)
      requires Closed() && UniqueNames() && d in entries
      ensures var kids, r, gone := Children(d), Without(Children(d), name), Lookup(d, name);
              && (gone == null ==> r == kids)
              && (gone != null ==> |r| == |kids| - 1)
              && (forall c {:trigger c in r} {:trigger c in kids} :: c in r <==> c in kids && c != gone)
              && (forall a, b :: 0 <= a < b < |r| ==> Name(r[a]) != Name(r[b]))
              && (forall j :: 0 <= j < |r| ==> Name(r[j]) != name)
              && (gone != null ==> forall a :: 0 <= a < |r| ==>
                    r[a] == kids[if a < IndexOf(kids, name) then a else a + 1])
    {
      var kids := Children(d);
      var i := IndexOf(kids, name);
      if i >= 0 {
        var r := kids[..i] + kids[i + 1..];
        RemovedAt(kids, i);
        forall a | 0 <= a < |r|
          ensures r[a] != kids[i] && Name(r[a]) != name
        {
          var a' := if a < i then a else a + 1;
          assert kids[a'] in kids && kids[i] in kids;
        }
        forall c | c in kids && c != kids[i]
          ensures c in r
        {
          var a :| 0 <= a < |kids| && kids[a] == c;
          assert r[if a < i then a else a - 1] == c;
        }
        forall a, b | 0 <= a < b < |r|
          ensures Name(r[a]) != Name(r[b])
        {
          var a', b' := if a < i then a else a + 1, if b < i then b else b + 1;
          assert kids[a'] in kids && kids[b'] in kids;
        }
      }
    }

    /** Dropping a name `d` does not have changes nothing. */
    lemma UnlinkedNothing(d: Node, name: string)
      requires d in entries && Lookup(d, name) == null
      ensures Unlinked(d, name) == this
    {
      assert entries[d := entries[d].(children := Children(d))] == entries;
    }

    /** What dropping changes: the entries of `d`, and nothing else. */
    lemma UnlinkedFields(d: Node, name: string)
      requires d in entries
      ensures var t := Unlinked(d, name);
              && t.entries.Keys == entries.Keys && t.root == root && t.depth == depth && t.height == height
              && t.Children(d) == Without(Children(d), name)
              && (forall m {:trigger t.Name(m)} :: t.Name(m) == Name(m))
              && (forall m {:trigger t.Parent(m)} :: t.Parent(m) == Parent(m))
              && (forall m {:trigger t.Depth(m)} :: t.Depth(m) == Depth(m))
              && (forall m {:trigger t.Children(m)} :: m != d ==> t.Children(m) == Children(m))
              && (forall m {:trigger t.entries[m]} :: m in entries && m != d ==> t.entries[m] == entries[m])
    {
      var t := Unlinked(d, name);
      forall m
        ensures t.Name(m) == Name(m) && t.Parent(m) == Parent(m) && t.Depth(m) == Depth(m)
        ensures m != d ==> t.Children(m) == Children(m)
      {
        if m == d {
          assert t.entries[d] == entries[d].(children := Without(Children(d), name));
        }
      }
    }

    /** A tree `t` that differs from this one only in dropping entries of `d`
        is a tree when this one is. */
    lemma SubsetValid(t: Tree, d: Node)
      requires Valid() && d in entries
      requires t.entries.Keys == entries.Keys && t.root == root && t.depth == depth && t.height == height
      requires forall m {:trigger t.Name(m)} :: t.Name(m) == Name(m)
      requires forall m {:trigger t.Parent(m)} :: t.Parent(m) == Parent(m)
      requires forall m {:trigger t.Children(m)} :: m != d ==> t.Children(m) == Children(m)
      requires forall c {:trigger c in t.Children(d)} :: c in t.Children(d) ==> c in Children(d)
      requires |t.Children(d)| <= |Children(d)|
      requires forall a, b :: 0 <= a < b < |t.Children(d)| ==> t.Name(t.Children(d)[a]) != t.Name(t.Children(d)[b])
      ensures t.Valid()
    {
      forall m, k | m in t.entries && k in t.Children(m)
        ensures k in t.entries && t.Parent(k) == m && k != root
      {
        assert k in Children(m);
      }
      forall m, a, b | m in t.entries && 0 <= a < b < |t.Children(m)|
        ensures t.Name(t.Children(m)[a]) != t.Name(t.Children(m)[b])
      {
        if m != d {
          var kids := Children(m);
          assert kids[a] in kids && kids[b] in kids;
        }
      }
      assert t.Closed() && t.Links() && t.UniqueNames();
      assert t.Kinds() by {
        forall m | m in t.entries && m.kind == File
          ensures t.Children(m) == []
        {
          if m == d {
            assert |t.Children(d)| <= |Children(d)| == 0;
          }
        }
      }
      assert t.Depths() by {
        assert t.depth.Keys == t.entries.Keys && t.Depth(root) == 0;
        forall m | m in t.entries && m != t.root
          ensures t.Depth(m) == t.Depth(t.Parent(m)) + 1
        {
          assert t.Parent(m) == Parent(m);
        }
        forall m | m in t.entries
          ensures t.Depth(m) <= t.height
        {
          assert t.Depth(m) == Depth(m);
        }
      }
    }

    /** Dropping an entry keeps the tree a tree: the other entries stay, in
        order, no entry of `d` has that name any more, the node that had it is
        nobody's entry, and no other node changes. */
    lemma UnlinkedValid(d: Node, name: string)
      requires Valid() && d in entries
      ensures var t, gone := Unlinked(d, name), Lookup(d, name);
              && t.Valid() && t.entries.Keys == entries.Keys
              && t.Lookup(d, name) == null
              && (gone == null ==> t.Children(d) == Children(d))
              && (gone != null ==> |t.Children(d)| == |Children(d)| - 1)
              && (gone != null ==> forall m :: m in entries ==> gone !in t.Children(m))
              && (forall c :: c in t.Children(d) <==> c in Children(d) && c != gone)
              && (forall m {:trigger t.entries[m]} :: m in entries && m != d ==> t.entries[m] == entries[m])
              && (forall m {:trigger t.Name(m)} :: t.Name(m) == Name(m))
              && (forall m {:trigger t.Parent(m)} :: t.Parent(m) == Parent(m))
    {
      var t, gone := Unlinked(d, name), Lookup(d, name);
      UnlinkedFields(d, name);
      WithoutEntry(d, name);
      SubsetValid(t, d);
    }

    /** Dropping an entry leaves attached every node that is not below it. */
    lemma {:induction false} UnlinkedKeepsAttached(d: Node, name: string, a: Node)
      requires Valid() && d in entries && a in entries && Attached(a)
      requires Lookup(d, name) == null || !Under(a, Lookup(d, name))
      ensures Unlinked(d, name).Valid() && Unlinked(d, name).Attached(a)
      decreases Depth(a)
    {
      UnlinkedValid(d, name);
      UnlinkedFields(d, name);
      if a != root {
        UnlinkedKeepsAttached(d, name, Parent(a));
      }
    }

    /** Dropping an entry renames nothing, so every absolute path stays spelled the same. */
    lemma {:induction false} UnlinkedKeepsNames(d: Node, name: string, a: Node)
      requires Valid() && d in entries && a in entries
      ensures Unlinked(d, name).Valid() && Unlinked(d, name).NamesFromRoot(a) == NamesFromRoot(a)
      decreases Depth(a)
    {
      UnlinkedValid(d, name);
      UnlinkedFields(d, name);
      if a != root {
        UnlinkedKeepsNames(d, name, Parent(a));
      }
    }

    /** Once `rm` has dropped an attached node from its parent, the node's
        absolute path resolves to nothing. */
    lemma RemovedUnresolvable(cwd: Node, n: Node)
      requires Valid() && cwd in entries && n in entries && n != root && Attached(n)
      ensures var u := Unlinked(Parent(n), Name(n));
              u.Valid() && cwd in u.entries && u.Resolve(cwd, PathOf(n)) == null
    {
      var p := Parent(n);
      var u := Unlinked(p, Name(n));
      UnlinkedValid(p, Name(n));
      UnlinkedFields(p, Name(n));
      var i :| 0 <= i < |Children(p)| && Children(p)[i] == n;
      LookupEntry(p, i);
      assert !Under(p, n);
      UnlinkedKeepsAttached(p, Name(n), p);
      UnlinkedKeepsNames(p, Name(n), p);
      u.ResolveBelow(cwd, p, Name(n));
      assert PathOf(n) == Joined(NamesFromRoot(p) + [Name(n)]);
    }

    /** `n` is `a` or lies below it: following parents from `n` meets `a`. */
    predicate Under(n: Node, a: Node)
      requires Valid() && n in entries
      ensures Under(n, a) ==> Depth(a) <= Depth(n)
      decreases Depth(n)
    {
      n == a || (n != root && Under(Parent(n), a))
    }

    /** Only a directory has anything below it. */
    lemma {:induction false} UnderDirectory(n: Node, a: Node)
      requires Valid() && n in entries && Under(n, a) && n != a
      ensures a.kind == Directory
      decreases Depth(n)
    {
      if Parent(n) != a {
        UnderDirectory(Parent(n), a);
      }
    }

    /** Two trees with the same root and parent links agree on what lies below what. */
    lemma {:induction false} UnderAgrees(t: Tree, n: Node, a: Node)
      requires Valid() && t.Valid() && n in entries && t.root == root && t.entries.Keys == entries.Keys
      requires forall m {:trigger t.Parent(m)} :: m in entries ==> t.Parent(m) == Parent(m)
      ensures t.Under(n, a) == Under(n, a)
      decreases Depth(n)
    {
      if n != a && n != root {
        UnderAgrees(t, Parent(n), a);
      }
    }

    /** The tree after `src`, which is nobody's entry, becomes the last entry
        of `dest` under `newName`; everything below `src` moves with it. */
    function Relinked(src: Node, dest: Node, newName: string): Tree
      requires Valid() && src in entries && dest in entries && src != dest
    {
      var level := Depth(dest) + 1;
      Tree(entries[src := Entry(newName, dest, Children(src))][dest := entries[dest].(children := Children(dest) + [src])],
           root,
           map n | n in entries :: if Under(n, src) then Depth(n) - Depth(src) + level else Depth(n),
           height + level)
    }

    /** What relinking changes: the name and parent of `src`, the entries of
        `dest`, and the depth of everything below `src`. */
    lemma RelinkedFields(src: Node, dest: Node, newName: string)
      requires Valid() && src in entries && dest in entries && src != dest
      ensures var t := Relinked(src, dest, newName);
              && t.entries.Keys == entries.Keys && t.root == root && t.height == height + Depth(dest) + 1
              && t.Name(src) == newName && t.Parent(src) == dest && t.Children(src) == Children(src)
              && t.Children(dest) == Children(dest) + [src]
              && (forall m {:trigger t.Name(m)} :: m != src ==> t.Name(m) == Name(m))
              && (forall m {:trigger t.Parent(m)} :: m != src ==> t.Parent(m) == Parent(m))
              && (forall m {:trigger t.Children(m)} :: m != dest ==> t.Children(m) == Children(m))
              && (forall m {:trigger t.entries[m]} :: m in entries && m != src && m != dest ==> t.entries[m] == entries[m])
              && (forall m {:trigger t.Depth(m)} :: m in entries ==>
                    t.Depth(m) == if Under(m, src) then Depth(m) - Depth(src) + Depth(dest) + 1 else Depth(m))
    {
    }

    lemma RelinkedLinks(t: Tree, src: Node, dest: Node)
      requires Valid() && src in entries && dest in entries && src != dest && src != root
      requires forall m {:trigger src in Children(m)} :: m in entries ==> src !in Children(m)
      requires t.entries.Keys == entries.Keys && t.root == root
      requires t.Parent(src) == dest && t.Children(src) == Children(src)
      requires t.Children(dest) == Children(dest) + [src]
      requires forall m {:trigger t.Parent(m)} :: m != src ==> t.Parent(m) == Parent(m)
      requires forall m {:trigger t.Children(m)} :: m != dest ==> t.Children(m) == Children(m)
      ensures t.Closed() && t.Links()
    {
      forall m, k | m in t.entries && k in t.Children(m)
        ensures k in t.entries && t.Parent(k) == m && k != root
      {
        if m != dest || k != src {
          assert k in Children(m);
        }
      }
    }

    lemma RelinkedUniqueNames(t: Tree, src: Node, dest: Node)
      requires Valid() && src in entries && dest in entries && src != dest
      requires forall m {:trigger src in Children(m)} :: m in entries ==> src !in Children(m)
      requires Lookup(dest, t.Name(src)) == null
      requires t.entries.Keys == entries.Keys
      requires t.Children(dest) == Children(dest) + [src]
      requires forall m {:trigger t.Name(m)} :: m != src ==> t.Name(m) == Name(m)
      requires forall m {:trigger t.Children(m)} :: m != dest ==> t.Children(m) == Children(m)
      ensures t.UniqueNames()
    {
      forall m, i, j | m in t.entries && 0 <= i < j < |t.Children(m)|
        ensures t.Name(t.Children(m)[i]) != t.Name(t.Children(m)[j])
      {
        var kids := Children(m);
        assert kids[i] in kids;
        if m != dest {
          assert kids[j] in kids;
        } else if j < |kids| {
          assert kids[j] in kids;
          assert t.Children(m)[i] == kids[i] && t.Children(m)[j] == kids[j];
        } else {
          assert t.Children(m)[i] == kids[i] && t.Children(m)[j] == src;
        }
      }
    }

    lemma RelinkedDepths(t: Tree, src: Node, dest: Node)
      requires Valid() && src in entries && dest in entries && src != dest && src != root
      requires !Under(dest, src)
      requires t.entries.Keys == entries.Keys && t.depth.Keys == entries.Keys && t.root == root
      requires t.height == height + Depth(dest) + 1 && t.Parent(src) == dest
      requires forall m {:trigger t.Parent(m)} :: m != src ==> t.Parent(m) == Parent(m)
      requires forall m {:trigger t.Depth(m)} :: m in entries ==>
                 t.Depth(m) == if Under(m, src) then Depth(m) - Depth(src) + Depth(dest) + 1 else Depth(m)
      ensures t.Depths()
    {
      assert !Under(root, src);
      forall m | m in t.entries && m != t.root
        ensures t.Depth(m) == t.Depth(t.Parent(m)) + 1
      {
        if m != src {
          assert Under(m, src) == Under(Parent(m), src);
        }
      }
    }

    /** Re-linking `src`, which is nobody's entry, as the last entry of a
        directory `dest` that is not below it, under a name `dest` does not
        have yet, keeps the tree a tree; `src` keeps its entries. */
    lemma RelinkedValid(src: Node, dest: Node, newName: string)
      requires Valid() && src in entries && src != root && dest in entries && dest.kind == Directory
      requires forall m {:trigger src in Children(m)} :: m in entries ==> src !in Children(m)
      requires !Under(dest, src) && Lookup(dest, newName) == null
      ensures var t := Relinked(src, dest, newName);
              && t.Valid() && t.Lookup(dest, newName) == src
    {
      var t := Relinked(src, dest, newName);
      RelinkedFields(src, dest, newName);
      RelinkedLinks(t, src, dest);
      RelinkedUniqueNames(t, src, dest);
      RelinkedDepths(t, src, dest);
      var kids := t.Children(dest);
      forall j | 0 <= j < |Children(dest)|
        ensures t.Name(kids[j]) != newName
      {
        assert kids[j] == Children(dest)[j] && kids[j] in Children(dest);
      }
      t.IndexOfIs(kids, newName, |Children(dest)|);
    }

    /** The tree after `mv`: the parent of `src` drops its first entry of the
        name `src` has, then `src` becomes the last entry of `dest` as
        `newName`. */
    function Moved(src: Node, dest: Node, newName: string): Tree
      requires Valid() && src in entries && dest in entries && src != dest
    {
      UnlinkedValid(Parent(src), Name(src));
      Unlinked(Parent(src), Name(src)).Relinked(src, dest, newName)
    }

    /** Once the parent of `src` has dropped the name of `src`, `src` is
        nobody's entry, and a directory `dest` that was not below `src` and had
        no entry named `newName` still is not and still has none: what
        re-linking `src` there needs. */
    lemma UnlinkedForMove(src: Node, dest: Node, newName: string)
      requires Valid() && src in entries && src != root && dest in entries
      requires !Under(dest, src) && Lookup(dest, newName) == null
      ensures var u := Unlinked(Parent(src), Name(src));
              && u.Valid() && u.entries.Keys == entries.Keys && u.root == root
              && (forall m {:trigger src in u.Children(m)} :: m in u.entries ==> src !in u.Children(m))
              && !u.Under(dest, src) && u.Lookup(dest, newName) == null
    {
      var p := Parent(src);
      var u := Unlinked(p, Name(src));
      UnlinkedFields(p, Name(src));
      UnlinkedValid(p, Name(src));
      if src in Children(p) {
        var i :| 0 <= i < |Children(p)| && Children(p)[i] == src;
        LookupEntry(p, i);
      }
      assert forall m {:trigger src in u.Children(m)} :: m in entries ==> src !in u.Children(m);
      UnderAgrees(u, dest, src);
      assert u.Lookup(dest, newName) == null by {
        forall j | 0 <= j < |u.Children(dest)|
          ensures u.Name(u.Children(dest)[j]) != newName
        {
          assert u.Children(dest)[j] in u.Children(dest);
        }
      }
    }

    /** Moving a node other than the root into a directory that is not below
        it, under a name that directory does not have yet, keeps the tree a
        tree: `src` is then the entry of `dest` by that name, keeps its own
        entries, and is no other directory's entry; no other node is renamed
        or re-parented. */
    lemma MovedValid(src: Node, dest: Node, newName: string)
      requires Valid() && src in entries && src != root && dest in entries && dest.kind == Directory
      requires !Under(dest, src) && Lookup(dest, newName) == null
      ensures var t := Moved(src, dest, newName);
              && t.Valid() && t.entries.Keys == entries.Keys && t.root == root
              && t.Lookup(dest, newName) == src && t.Parent(src) == dest && t.Children(src) == Children(src)
              && (forall m {:trigger t.Children(m)} :: m in entries && m != dest ==> src !in t.Children(m))
              && (forall m {:trigger t.Name(m)} :: m != src ==> t.Name(m) == Name(m))
              && (forall m {:trigger t.Parent(m)} :: m != src ==> t.Parent(m) == Parent(m))
              && (forall m {:trigger t.Children(m)} :: m != dest && m != Parent(src) ==> t.Children(m) == Children(m))
    {
      var p := Parent(src);
      var u := Unlinked(p, Name(src));
      UnlinkedFields(p, Name(src));
      UnlinkedValid(p, Name(src));
      UnlinkedForMove(src, dest, newName);
      u.RelinkedFields(src, dest, newName);
      u.RelinkedValid(src, dest, newName);
    }

    // ------------------------------------------------------------------
    // Spellable names survive every change
    // ------------------------------------------------------------------

    lemma AddedNamed(d: Node, c: Node, name: string)
      requires Named() && d in entries && c !in entries && Spellable(name)
      ensures Added(d, c, name).Named()
    {
      AddedFields(d, c, name);
    }

    lemma UnlinkedNamed(d: Node, name: string)
      requires Named() && d in entries
      ensures Unlinked(d, name).Named()
    {
      UnlinkedFields(d, name);
    }

    /** Re-linking keeps every name spellable when the new name is. */
    lemma RelinkedNamed(src: Node, dest: Node, newName: string)
      requires Valid() && Named() && src in entries && dest in entries && src != dest
      requires Spellable(newName)
      ensures Relinked(src, dest, newName).Named()
    {
      RelinkedFields(src, dest, newName);
    }
  }

  /** Without the element at `i`, each later element moves one place down. */
  lemma RemovedAt<T>(s: seq<T>, i: nat)
    requires i < |s|
    ensures |s[..i] + s[i + 1..]| == |s| - 1
    ensures forall a {:trigger (s[..i] + s[i + 1..])[a]} :: 0 <= a < |s| - 1 ==>
              (s[..i] + s[i + 1..])[a] == s[if a < i then a else a + 1]
  {
  }

  /** How many times `x` occurs in `s`. */
  ghost function Occurrences<T>(s: seq<T>, x: T): nat
    decreases |s|
  {
    if s == [] then 0 else Occurrences(s[..|s| - 1], x) + (if s[|s| - 1] == x then 1 else 0)
  }

  /** `Occurrences` is the multiplicity of `x` in the multiset of `s`. */
  lemma {:induction false} OccurrencesMultiset<T>(s: seq<T>, x: T)
    ensures Occurrences(s, x) == multiset(s)[x]
    decreases |s|
  {
    if s != [] {
      OccurrencesMultiset(s[..|s| - 1], x);
      assert s == s[..|s| - 1] + [s[|s| - 1]];
    }
  }

  lemma {:induction false} OccurrencesAppend<T>(a: seq<T>, b: seq<T>, x: T)
    ensures Occurrences(a + b, x) == Occurrences(a, x) + Occurrences(b, x)
    decreases |b|
  {
    if b == [] {
      assert a + b == a;
    } else {
      assert (a + b)[..|a + b| - 1] == a + b[..|b| - 1];
      OccurrencesAppend(a, b[..|b| - 1], x);
    }
  }

  lemma {:induction false} OccurrencesAbsent<T>(s: seq<T>, x: T)
    requires forall k :: 0 <= k < |s| ==> s[k] != x
    ensures Occurrences(s, x) == 0
    decreases |s|
  {
    if s != [] {
      OccurrencesAbsent(s[..|s| - 1], x);
    }
  }

  lemma Associative<T>(a: seq<T>, b: seq<T>, c: seq<T>)
    ensures a + (b + c) == a + b + c
  {
  }
}
