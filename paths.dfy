/**
 * Path text: the '/'-separated segments of a path, the position of its last
 * separator, its base name, and Java's `String.split("/")`, which the path
 * resolver of `FileSystemManager` uses.
 */
module Paths {

  /** Index of the last '/' in `s`, or -1 when there is none. */
  function LastSlash(s: string): (i: int)
    ensures -1 <= i < |s|
    ensures i >= 0 ==> s[i] == '/'
    ensures forall j :: i < j < |s| ==> s[j] != '/'
  {
    if s == [] then -1
    else if s[|s| - 1] == '/' then |s| - 1
    else LastSlash(s[..|s| - 1])
  }

  /** `LastSlash` is pinned down by its contract: a '/' at `i` and none after it. */
  lemma LastSlashIs(s: string, i: int)
    requires -1 <= i < |s|
    requires i >= 0 ==> s[i] == '/'
    requires forall j :: i < j < |s| ==> s[j] != '/'
    ensures LastSlash(s) == i
  {
  }

  /** The entry name a path designates (`getBaseNameFromPath`): "" for "", "/" for
      "/", otherwise the text after the last '/' once one trailing '/' is dropped. */
  function BaseName(path: string): (b: string)
    ensures path == "/" ==> b == "/"
    ensures path != "/" ==> '/' !in b
    ensures |b| <= |path|
  {
    if path == "" then ""
    else if path == "/" then "/"
    else
      var p := if path[|path| - 1] == '/' then path[..|path| - 1] else path;
      p[LastSlash(p) + 1..]
  }

  /** A directory path followed by '/' and a name has that name as its base name. */
  lemma BaseNameOfChild(dir: string, name: string)
    requires name != "" && '/' !in name
    ensures BaseName(dir + "/" + name) == name
  {
    var p := dir + "/" + name;
    assert p[|p| - 1] == name[|name| - 1];
    assert p[|dir|] == '/';
    forall j | |dir| < j < |p| ensures p[j] != '/' {
      assert p[j] == name[j - |dir| - 1];
    }
    LastSlashIs(p, |dir|);
    assert p[|dir| + 1..] == name;
  }

  /** One trailing '/' does not change the base name. */
  lemma BaseNameIgnoresTrailingSlash(path: string)
    requires path != "" && path[|path| - 1] != '/'
    ensures BaseName(path + "/") == BaseName(path)
  {
    var p := path + "/";
    assert p[..|p| - 1] == path;
  }

  /** The pieces of `s` between separators, empty pieces included ("/a//b/"
      gives "", "a", "", "b", ""). */
  function Segments(s: string): (parts: seq<string>)
    ensures |parts| >= 1
    ensures forall k :: 0 <= k < |parts| ==> '/' !in parts[k]
    decreases |s|
  {
    var i := LastSlash(s);
    if i < 0 then [s] else Segments(s[..i]) + [s[i + 1..]]
  }

  /** The pieces glued back together with '/' between neighbours. */
  function JoinWithSlash(parts: seq<string>): string
    requires |parts| >= 1
  {
    if |parts| == 1 then parts[0]
    else JoinWithSlash(parts[..|parts| - 1]) + "/" + parts[|parts| - 1]
  }

  /** Splitting and joining are inverse: joining the segments gives back the text. */
  lemma {:induction false} JoinSegments(s: string)
    ensures JoinWithSlash(Segments(s)) == s
    decreases |s|
  {
    var i := LastSlash(s);
    if i >= 0 {
      var parts := Segments(s);
      JoinSegments(s[..i]);
      assert parts[..|parts| - 1] == Segments(s[..i]);
      assert s == s[..i] + "/" + s[i + 1..];
    }
  }

  /** Text ending in a '/' and a separator-free piece splits there. */
  lemma SegmentsOfSplit(a: string, b: string)
    requires '/' !in b
    ensures Segments(a + "/" + b) == Segments(a) + [b]
  {
    var s := a + "/" + b;
    assert s[|a|] == '/';
    forall j | |a| < j < |s| ensures s[j] != '/' {
      assert s[j] == b[j - |a| - 1];
    }
    LastSlashIs(s, |a|);
    assert s[..|a|] == a && s[|a| + 1..] == b;
  }

  /** ...and segmenting a join of separator-free pieces gives back the pieces. */
  lemma {:induction false} SegmentsJoin(parts: seq<string>)
    requires |parts| >= 1
    requires forall k :: 0 <= k < |parts| ==> '/' !in parts[k]
    ensures Segments(JoinWithSlash(parts)) == parts
    decreases |parts|
  {
    var s := JoinWithSlash(parts);
    if |parts| == 1 {
      forall j | 0 <= j < |s| ensures s[j] != '/' {
        assert s[j] in parts[0];
      }
      LastSlashIs(s, -1);
    } else {
      var front := JoinWithSlash(parts[..|parts| - 1]);
      var last := parts[|parts| - 1];
      SegmentsOfSplit(front, last);
      SegmentsJoin(parts[..|parts| - 1]);
      assert parts == parts[..|parts| - 1] + [last];
    }
  }

  /** A trailing '/' adds one empty segment. */
  lemma SegmentsWithTrailingSlash(s: string)
    ensures Segments(s + "/") == Segments(s) + [""]
  {
    var t := s + "/";
    LastSlashIs(t, |s|);
    assert t[..|s|] == s && t[|s| + 1..] == "";
  }

  /** A leading '/' adds one empty segment in front. */
  lemma {:induction false} SegmentsWithLeadingSlash(s: string)
    ensures Segments("/" + s) == [""] + Segments(s)
    decreases |s|
  {
    var i := LastSlash(s);
    if i < 0 {
      LeadingSlashOnly(s);
    } else {
      var front, last := s[..i], s[i + 1..];
      assert s == front + "/" + last;
      assert '/' !in last by {
        forall j | 0 <= j < |last| ensures last[j] != '/' {
          assert last[j] == s[i + 1 + j];
        }
      }
      assert "/" + s == ("/" + front) + "/" + last;
      SegmentsWithLeadingSlash(front);
      SegmentsOfSplit(front, last);
      SegmentsOfSplit("/" + front, last);
    }
  }

  lemma LeadingSlashOnly(s: string)
    requires LastSlash(s) < 0
    ensures Segments("/" + s) == [""] + Segments(s)
  {
    var t := "/" + s;
    forall j | 0 < j < |t| ensures t[j] != '/' {
      assert t[j] == s[j - 1];
    }
    LastSlashIs(t, 0);
    assert t[..0] == "" && t[1..] == s;
    LastSlashIs("", -1);
    assert Segments(t) == Segments("") + [s];
  }

  /** The pieces with every trailing empty piece removed. */
  function DropTrailingEmpty(parts: seq<string>): (r: seq<string>)
    ensures |r| <= |parts| && r == parts[..|r|]
    ensures forall k :: |r| <= k < |parts| ==> parts[k] == ""
    ensures r == [] || r[|r| - 1] != ""
  {
    if parts == [] then []
    else if parts[|parts| - 1] == "" then DropTrailingEmpty(parts[..|parts| - 1])
    else parts
  }

  /** Java's `s.split("/")`: a text without '/' is its own only piece; otherwise
      the segments, with trailing empty ones dropped ("/".split gives none). */
  function JavaSplit(s: string): (parts: seq<string>)
    ensures forall k :: 0 <= k < |parts| ==> '/' !in parts[k]
    ensures '/' !in s ==> parts == Segments(s)
    ensures '/' in s ==>
              && |parts| <= |Segments(s)| && parts == Segments(s)[..|parts|]
              && (forall k :: |parts| <= k < |Segments(s)| ==> Segments(s)[k] == "")
              && (parts == [] || parts[|parts| - 1] != "")
  {
    if '/' !in s then [s]
    else
      DropTrailingEmpty(Segments(s))
  }

  /** The text a path builder produces from names: "/" before each one. */
  function Joined(names: seq<string>): (s: string)
    ensures |s| >= |names|
  {
    if names == [] then ""
    else Joined(names[..|names| - 1]) + "/" + names[|names| - 1]
  }

  /** Building "/" + name for each name and then splitting on '/' gives an
      empty first piece followed by the names. */
  lemma {:induction false} SegmentsOfJoined(names: seq<string>)
    requires forall k :: 0 <= k < |names| ==> '/' !in names[k]
    ensures Segments(Joined(names)) == [""] + names
    decreases |names|
  {
    if names == [] {
      LastSlashIs("", -1);
    } else {
      var front := names[..|names| - 1];
      var last := names[|names| - 1];
      SegmentsOfSplit(Joined(front), last);
      SegmentsOfJoined(front);
      assert names == front + [last];
    }
  }

  /** A built path starts with '/' as soon as there is a name in it. */
  lemma {:induction false} JoinedStartsWithSlash(names: seq<string>)
    requires names != []
    ensures Joined(names)[0] == '/'
    decreases |names|
  {
    var front := names[..|names| - 1];
    if front != [] {
      JoinedStartsWithSlash(front);
    }
  }

  /** A name `mkdir` and `createFile` accept: not "", "." or "..". */
  predicate IsEntryName(name: string)
  {
    name != "" && name != "." && name != ".."
  }

  /** A path with one trailing '/' removed, unless it is "/" itself. */
  function StripTrailingSlash(path: string): (p: string)
    ensures |path| > 1 && path[|path| - 1] == '/' ==> path == p + "/"
    ensures !(|path| > 1 && path[|path| - 1] == '/') ==> p == path
  {
    if |path| > 1 && path[|path| - 1] == '/' then path[..|path| - 1] else path
  }
}
