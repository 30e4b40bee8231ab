/**
 The virtual-filesystem path joiner of utils.py (`vfs_construct_path`), which
 mimics POSIX `os.path.join`: segments are appended in order with a `/` only
 where one is needed, and a segment that starts with `/` discards everything
 accumulated before it. No normalisation happens here.
 */
module VfsJoin {
  import opened Text

  /** A segment that starts with `/` is absolute. */
  predicate IsAbsolute(segment: string) {
    StartsWith(segment, "/")
  }

  /** The path so far needs a `/` before a relative segment: it is non-empty and does not end with `/`. */
  predicate NeedsSeparator(path: string) {
    path != "" && !EndsWith(path, "/")
  }

  /** One iteration of the joining loop (utils.py:355-360). */
  function Append(path: string, segment: string): (r: string)
    ensures EndsWith(r, segment)
    ensures IsAbsolute(segment) ==> r == segment
    ensures !IsAbsolute(segment) ==> StartsWith(r, path)
  {
    if IsAbsolute(segment) then segment
    else if !NeedsSeparator(path) then path + segment
    else path + "/" + segment
  }

  /**
   `vfs_construct_path(a, *p)` (utils.py:351-361): the base followed by every
   segment in turn. The result always ends with the last segment.
   */
  function ConstructPath(base: string, segments: seq<string>): (r: string)
    ensures |segments| == 0 ==> r == base
    ensures |segments| > 0 ==> EndsWith(r, segments[|segments| - 1])
    decreases |segments|
  {
    if |segments| == 0 then base
    else ConstructPath(Append(base, segments[0]), segments[1..])
  }

  /** `vfs_construct_path` as the loop the source runs. */
  method ConstructPathLoop(base: string, segments: seq<string>) returns (path: string)
    ensures path == ConstructPath(base, segments)
  {
    path := base;
    var i := 0;
    while i < |segments|
      invariant 0 <= i <= |segments|
      invariant ConstructPath(path, segments[i..]) == ConstructPath(base, segments)
      decreases |segments| - i
    {
      var b := segments[i];
      if StartsWith(b, "/") {
        path := b;
      } else if path == "" || EndsWith(path, "/") {
        path := path + b;
      } else {
        path := path + "/" + b;
      }
      assert segments[i..][1..] == segments[i + 1..];
      i := i + 1;
    }
    assert segments[i..] == [];
  }

  /**
   Adding one more segment at the end applies the appending rule once more to
   the path joined so far: a relative segment is appended directly when that
   path is empty or ends with `/`, and after a `/` otherwise.
   */
  lemma {:induction false} ConstructPathSnoc(base: string, segments: seq<string>, last: string)
    ensures ConstructPath(base, segments + [last]) == Append(ConstructPath(base, segments), last)
    ensures var path := ConstructPath(base, segments);
      !IsAbsolute(last) ==>
        ConstructPath(base, segments + [last])
          == if path == "" || EndsWith(path, "/") then path + last else path + "/" + last
    decreases |segments|
  {
    var all := segments + [last];
    if |segments| == 0 {
      assert all[1..] == [];
    } else {
      assert all[1..] == segments[1..] + [last];
      ConstructPathSnoc(Append(base, segments[0]), segments[1..], last);
    }
  }

  /** An absolute segment resets the join: nothing before it survives. */
  lemma {:induction false} ConstructPathReset(base: string, segments: seq<string>, i: nat)
    requires i < |segments|
    requires IsAbsolute(segments[i])
    ensures ConstructPath(base, segments) == ConstructPath(segments[i], segments[i + 1..])
    decreases i
  {
    if i > 0 {
      ConstructPathReset(Append(base, segments[0]), segments[1..], i - 1);
      assert segments[1..][i - 1] == segments[i];
      assert segments[1..][i..] == segments[i + 1..];
    }
  }

  /** Without absolute segments, the base survives as a prefix of the result. */
  lemma {:induction false} ConstructPathKeepsBase(base: string, segments: seq<string>)
    requires forall i | 0 <= i < |segments| :: !IsAbsolute(segments[i])
    ensures StartsWith(ConstructPath(base, segments), base)
    decreases |segments|
  {
    if |segments| > 0 {
      var next := Append(base, segments[0]);
      ConstructPathKeepsBase(next, segments[1..]);
      var r := ConstructPath(base, segments);
      assert r[..|next|] == next;
      assert r[..|base|] == r[..|next|][..|base|];
    }
  }

  /** A relative segment that neither is empty nor ends with `/` is appended after a `/`, and again needs one after it. */
  lemma AppendPlain(path: string, segment: string)
    requires NeedsSeparator(path)
    requires segment != "" && !IsAbsolute(segment) && !EndsWith(segment, "/")
    ensures Append(path, segment) == path + "/" + segment
    ensures NeedsSeparator(path + "/" + segment)
  {
    var next := path + "/" + segment;
    assert next[|next| - 1..] == segment[|segment| - 1..];
  }

  /**
   When the base and every segment are non-empty, relative and do not end with
   `/`, joining is exactly `'/'.join` of the base and the segments.
   */
  lemma {:induction false} ConstructPathIsJoin(base: string, segments: seq<string>)
    requires NeedsSeparator(base)
    requires forall i | 0 <= i < |segments| ::
      segments[i] != "" && !IsAbsolute(segments[i]) && !EndsWith(segments[i], "/")
    ensures ConstructPath(base, segments) == Join([base] + segments, "/")
    decreases |segments|
  {
    if |segments| == 0 {
      assert [base] + segments == [base];
    } else {
      var next := base + "/" + segments[0];
      AppendPlain(base, segments[0]);
      ConstructPathIsJoin(next, segments[1..]);
      JoinMergeHead(base, segments[0], segments[1..], "/");
      assert [base] + segments == [base, segments[0]] + segments[1..];
    }
  }

  /**
   A segment that does not start with `/` and ends in a non-empty, slash-free
   tail is appended after a `/` and needs one after it.
   */
  lemma PlainSegment(p: string, c: string)
    requires |p + c| > 0 && (p + c)[0] != '/'
    requires c != "" && '/' !in c
    ensures p + c != "" && !IsAbsolute(p + c) && !EndsWith(p + c, "/")
  {
    var s := p + c;
    SlashPrefixes(s);
    TrailingSlash(s);
    assert s[|s| - 1] == c[|c| - 1];
  }

  /** Two plain segments after a base that needs a separator. */
  lemma ConstructPathTwo(base: string, s1: string, s2: string)
    requires NeedsSeparator(base)
    requires s1 != "" && !IsAbsolute(s1) && !EndsWith(s1, "/")
    requires s2 != "" && !IsAbsolute(s2) && !EndsWith(s2, "/")
    ensures ConstructPath(base, [s1, s2]) == base + "/" + s1 + "/" + s2
  {
    assert [base] + [s1, s2] == [base, s1, s2];
    ConstructPathIsJoin(base, [s1, s2]);
    JoinThree(base, s1, s2, "/");
  }

  /** `("a", "b", "c")` gives `a/b/c`. */
  lemma ConstructPathExampleThree()
    ensures ConstructPath("a", ["b", "c"]) == "a/b/c"
  {
    SlashPrefixes("a");
    TrailingSlash("a");
    SlashPrefixes("b");
    TrailingSlash("b");
    SlashPrefixes("c");
    TrailingSlash("c");
    SlashPrefixes("a/b");
    TrailingSlash("a/b");
    assert ["b", "c"][1..] == ["c"];
  }

  /** `("a/", "b")` gives `a/b`: no second slash is added. */
  lemma ConstructPathExampleTrailingSlash()
    ensures ConstructPath("a/", ["b"]) == "a/b"
  {
    SlashPrefixes("a/");
    TrailingSlash("a/");
    SlashPrefixes("b");
    TrailingSlash("b");
  }

  /** `("a", "")` gives `a/`. */
  lemma ConstructPathExampleEmptySegment()
    ensures ConstructPath("a", [""]) == "a/"
  {
    SlashPrefixes("a");
    TrailingSlash("a");
    SlashPrefixes("");
    TrailingSlash("");
  }

  /** `("a", "/b")` gives `/b`. */
  lemma ConstructPathExampleAbsolute()
    ensures ConstructPath("a", ["/b"]) == "/b"
  {
    SlashPrefixes("/b");
    TrailingSlash("/b");
  }

  /** `("a/b", "../c", "./d")` gives `a/b/../c/./d`: `.` and `..` pass through verbatim. */
  lemma ConstructPathExampleParent()
    ensures ConstructPath("a/b", ["../c", "./d"]) == "a/b/../c/./d"
  {
    SlashPrefixes("a/b");
    TrailingSlash("a/b");
    SlashPrefixes("../c");
    TrailingSlash("../c");
    SlashPrefixes("a/b/../c");
    TrailingSlash("a/b/../c");
    SlashPrefixes("./d");
    TrailingSlash("./d");
    assert ["../c", "./d"][1..] == ["./d"];
  }
}
