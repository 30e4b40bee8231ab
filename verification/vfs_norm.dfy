/**
 The virtual-filesystem path normaliser of utils.py (`vfs_normpath`), a copy
 of POSIX `posixpath.normpath`: it keeps zero, one or two leading slashes,
 drops empty and `.` components, resolves `..` against a stack of components
 and answers `.` rather than the empty string. The operation is total: every
 string has a normal form.
 */
module VfsNorm {
  import opened Text

  /**
   How many leading slashes a normalised path keeps. POSIX keeps exactly two
   leading slashes and collapses three or more to one.
   */
  datatype Slashes = NoSlash | OneSlash | TwoSlashes {
    /** The leading slashes themselves: none, one or two. */
    function Prefix(): (r: string)
      ensures forall i | 0 <= i < |r| :: r[i] == '/'
      ensures |r| <= 2
      ensures |r| == 0 <==> NoSlash?
      ensures |r| == 2 <==> TwoSlashes?
    {
      match this
      case NoSlash => ""
      case OneSlash => "/"
      case TwoSlashes => "//"
    }

    /** What splitting the leading slashes at `/` contributes: one empty piece per slash. */
    function EmptyPieces(): (r: seq<string>)
      ensures |r| == |Prefix()|
    {
      match this
      case NoSlash => []
      case OneSlash => [""]
      case TwoSlashes => ["", ""]
    }

    /** An absolute path: one or two leading slashes. */
    predicate Rooted() {
      !NoSlash?
    }
  }

  /** The count of leading slashes a path will keep (utils.py:370-375). */
  function InitialSlashes(path: string): Slashes {
    if !StartsWith(path, "/") then NoSlash
    else if StartsWith(path, "//") && !StartsWith(path, "///") then TwoSlashes
    else OneSlash
  }

  /**
   One iteration of the component loop: skip empty and `.` components, push an
   ordinary component, pop on a `..` that has a parent to cancel, keep a `..`
   that cannot be resolved in a relative path, drop it above the root.
   */
  function Step(stack: seq<string>, comp: string, rooted: bool): seq<string> {
    if comp == "" || comp == "." then stack
    else if comp != ".." || (!rooted && |stack| == 0)
            || (|stack| > 0 && stack[|stack| - 1] == "..")
    then stack + [comp]
    else if |stack| > 0 then stack[..|stack| - 1]
    else stack
  }

  /** The component loop as a left fold of `Step`, starting from the stack `acc`. */
  function ResolveFrom(acc: seq<string>, comps: seq<string>, rooted: bool): seq<string>
    decreases |comps|
  {
    if |comps| == 0 then acc
    else ResolveFrom(Step(acc, comps[0], rooted), comps[1..], rooted)
  }

  /** The components that survive normalisation, in order. */
  function Resolve(comps: seq<string>, rooted: bool): seq<string> {
    ResolveFrom([], comps, rooted)
  }

  /** The leading slashes followed by the surviving components, or `.` if that is empty. */
  function Render(slashes: Slashes, stack: seq<string>): string {
    var joined := slashes.Prefix() + Join(stack, "/");
    if joined == "" then "." else joined
  }

  /** `vfs_normpath` (utils.py:364-390). */
  function NormPath(path: string): (r: string)
    ensures r != ""
    ensures path == "" ==> r == "."
  {
    if path == "" then "."
    else
      var slashes := InitialSlashes(path);
      Render(slashes, Resolve(Split(path, '/'), slashes.Rooted()))
  }

  /** `vfs_normpath` as the loop the source runs, over a growable stack of components. */
  method NormPathLoop(path: string) returns (r: string)
    ensures r == NormPath(path)
  {
    if path == "" {
      return ".";
    }
    var slashes := InitialSlashes(path);
    var rooted := slashes.Rooted();
    var comps := Split(path, '/');
    var newComps: seq<string> := [];
    var i := 0;
    while i < |comps|
      invariant 0 <= i <= |comps|
      invariant ResolveFrom(newComps, comps[i..], rooted) == Resolve(comps, rooted)
      decreases |comps| - i
    {
      var comp := comps[i];
      if comp != "" && comp != "." {
        if comp != ".." || (!rooted && |newComps| == 0)
           || (|newComps| > 0 && newComps[|newComps| - 1] == "..") {
          newComps := newComps + [comp];
        } else if |newComps| > 0 {
          newComps := newComps[..|newComps| - 1];
        }
      }
      assert comps[i..][1..] == comps[i + 1..];
      i := i + 1;
    }
    r := slashes.Prefix() + Join(newComps, "/");
    if r == "" {
      r := ".";
    }
  }

  /** A component that may appear in a normal form: non-empty, not `.`, no slash. */
  predicate ProperComp(c: string) {
    c != "" && c != "." && '/' !in c
  }

  /**
   The shape of the component stack of a normal form: only proper components;
   no `..` at all under a root; in a relative path, every `..` comes before
   every ordinary component.
   */
  predicate Canonical(stack: seq<string>, rooted: bool) {
    && (forall i | 0 <= i < |stack| :: ProperComp(stack[i]))
    && (rooted ==> forall i | 0 <= i < |stack| :: stack[i] != "..")
    && (!rooted ==> forall i, j | 0 <= i < j < |stack| :: stack[j] == ".." ==> stack[i] == "..")
  }

  /** One loop iteration keeps the stack canonical. */
  lemma StepCanonical(stack: seq<string>, comp: string, rooted: bool)
    requires Canonical(stack, rooted)
    requires '/' !in comp
    ensures Canonical(Step(stack, comp, rooted), rooted)
  {
    var n := |stack|;
    if comp != "" && comp != "." && comp == ".." && n > 0 && stack[n - 1] == ".." {
      assert !rooted;
      assert forall i | 0 <= i < n :: stack[i] == ".." by {
        forall i | 0 <= i < n
          ensures stack[i] == ".."
        {
          if i < n - 1 {
            assert stack[n - 1] == "..";
          }
        }
      }
      var next := stack + [comp];
      assert forall i | 0 <= i < |next| :: next[i] == "..";
    }
  }

  /** The whole fold keeps the stack canonical, whatever slash-free components it reads. */
  lemma {:induction false} ResolveCanonical(acc: seq<string>, comps: seq<string>, rooted: bool)
    requires Canonical(acc, rooted)
    requires forall i | 0 <= i < |comps| :: '/' !in comps[i]
    ensures Canonical(ResolveFrom(acc, comps, rooted), rooted)
    decreases |comps|
  {
    if |comps| > 0 {
      StepCanonical(acc, comps[0], rooted);
      ResolveCanonical(Step(acc, comps[0], rooted), comps[1..], rooted);
    }
  }

  /** Reading the rest of a canonical stack pushes every component unchanged. */
  lemma {:induction false} ResolveFixesCanonical(acc: seq<string>, rest: seq<string>, rooted: bool)
    requires Canonical(acc + rest, rooted)
    ensures ResolveFrom(acc, rest, rooted) == acc + rest
    decreases |rest|
  {
    if |rest| > 0 {
      var all := acc + rest;
      var comp := rest[0];
      assert comp == all[|acc|];
      if comp == ".." && |acc| > 0 {
        assert acc[|acc| - 1] == all[|acc| - 1];
      }
      assert Step(acc, comp, rooted) == acc + [comp];
      assert (acc + [comp]) + rest[1..] == all;
      ResolveFixesCanonical(acc + [comp], rest[1..], rooted);
    }
  }

  /** Every component that survives was already on the stack or among the input components. */
  lemma {:induction false} ResolveFromInput(acc: seq<string>, comps: seq<string>, rooted: bool)
    ensures forall c | c in ResolveFrom(acc, comps, rooted) :: c in acc || c in comps
    decreases |comps|
  {
    if |comps| > 0 {
      var next := Step(acc, comps[0], rooted);
      assert forall c | c in next :: c in acc || c == comps[0];
      ResolveFromInput(next, comps[1..], rooted);
    }
  }

  /** The joined components of a canonical stack neither are empty nor start with a slash unless the stack is empty. */
  lemma JoinedCanonical(stack: seq<string>, rooted: bool)
    requires Canonical(stack, rooted)
    ensures var j := Join(stack, "/");
      (j == "" <==> |stack| == 0) && (j != "" ==> j[0] != '/')
  {
    if |stack| > 0 {
      assert ProperComp(stack[0]);
      assert stack[0][0] != '/';
    }
  }

  /** A rendered canonical stack starts with exactly the slashes it was rendered with. */
  lemma RenderSlashes(slashes: Slashes, stack: seq<string>)
    requires Canonical(stack, slashes.Rooted())
    ensures InitialSlashes(Render(slashes, stack)) == slashes
  {
    JoinedCanonical(stack, slashes.Rooted());
    var j := Join(stack, "/");
    var r := Render(slashes, stack);
    SlashPrefixes(r);
    match slashes
    case NoSlash =>
      if r == "." {
        assert r[0] == '.';
      } else {
        assert r == j;
      }
    case OneSlash =>
      assert r == "/" + j;
      if |r| >= 2 {
        assert r[1] == j[0];
      }
    case TwoSlashes =>
      assert r == "//" + j;
      if |r| >= 3 {
        assert r[2] == j[0];
      }
  }

  /** A leading slash splits off one empty piece. */
  lemma SplitLeadingSlash(x: string)
    ensures Split("/" + x, '/') == [""] + Split(x, '/')
  {
    assert ("/" + x)[1..] == x;
  }

  /** The joined components of a stack split back into the stack, or into one empty piece. */
  lemma SplitJoinedStack(stack: seq<string>)
    requires forall i | 0 <= i < |stack| :: '/' !in stack[i]
    ensures Split(Join(stack, "/"), '/') == if |stack| == 0 then [""] else stack
  {
    if |stack| > 0 {
      SplitJoin(stack, '/');
    }
  }

  /** Splitting a rendered path gives one empty piece per leading slash, then the components. */
  lemma SplitRendered(slashes: Slashes, stack: seq<string>)
    requires forall i | 0 <= i < |stack| :: '/' !in stack[i]
    ensures Split(slashes.Prefix() + Join(stack, "/"), '/')
              == slashes.EmptyPieces() + (if |stack| == 0 then [""] else stack)
  {
    var j := Join(stack, "/");
    SplitJoinedStack(stack);
    SplitAfterSlashes(slashes, j, Split(j, '/'));
  }

  /** Each leading slash splits off one empty piece. */
  lemma SplitAfterSlashes(slashes: Slashes, j: string, pieces: seq<string>)
    requires Split(j, '/') == pieces
    ensures Split(slashes.Prefix() + j, '/') == slashes.EmptyPieces() + pieces
  {
    match slashes
    case NoSlash =>
      assert slashes.Prefix() + j == j;
      assert [] + pieces == pieces;
    case OneSlash =>
      SplitLeadingSlash(j);
    case TwoSlashes =>
      assert slashes.Prefix() + j == "/" + ("/" + j);
      SplitLeadingSlash("/" + j);
      SplitLeadingSlash(j);
      assert [""] + ([""] + pieces) == ["", ""] + pieces;
  }

  /** Normalising the rendering of a canonical stack gives that rendering back. */
  lemma RenderReparses(slashes: Slashes, stack: seq<string>)
    requires Canonical(stack, slashes.Rooted())
    ensures NormPath(Render(slashes, stack)) == Render(slashes, stack)
  {
    var rooted := slashes.Rooted();
    var r := Render(slashes, stack);
    RenderSlashes(slashes, stack);
    if slashes.Prefix() + Join(stack, "/") == "" {
      assert r == ".";
      NormPathDot();
    } else {
      SplitRendered(slashes, stack);
      assert r == slashes.Prefix() + Join(stack, "/");
      var pieces := if |stack| == 0 then [""] else stack;
      assert ResolveFrom([], pieces, rooted) == stack by {
        if |stack| == 0 {
          assert ResolveFrom([], [""], rooted) == ResolveFrom([], [], rooted);
        } else {
          assert [] + stack == stack;
          ResolveFixesCanonical([], stack, rooted);
        }
      }
      match slashes
      case NoSlash =>
        assert Split(r, '/') == pieces;
      case OneSlash =>
        assert ([""] + pieces)[1..] == pieces;
      case TwoSlashes =>
        assert (["", ""] + pieces)[1..] == [""] + pieces;
        assert ([""] + pieces)[1..] == pieces;
        assert ResolveFrom([], [""] + pieces, rooted) == ResolveFrom([], pieces, rooted);
        assert ResolveFrom([], ["", ""] + pieces, rooted) == ResolveFrom([], [""] + pieces, rooted);
    }
  }

  /** The stack behind a normal form is canonical. */
  lemma NormPathStackCanonical(path: string)
    requires path != ""
    ensures Canonical(Resolve(Split(path, '/'), InitialSlashes(path).Rooted()),
                      InitialSlashes(path).Rooted())
  {
    ResolveCanonical([], Split(path, '/'), InitialSlashes(path).Rooted());
  }

  /**
   The result keeps the kind of leading slashes of the input: none for a
   relative input, exactly two for an input starting with exactly `//`, and
   exactly one for every other absolute input, `///…` included.
   */
  lemma NormPathLeadingSlashes(path: string)
    ensures InitialSlashes(NormPath(path)) == InitialSlashes(path)
    ensures !StartsWith(path, "/") ==> !StartsWith(NormPath(path), "/")
    ensures StartsWith(path, "//") && !StartsWith(path, "///") ==>
              StartsWith(NormPath(path), "//") && !StartsWith(NormPath(path), "///")
    ensures StartsWith(path, "/") && !(StartsWith(path, "//") && !StartsWith(path, "///")) ==>
              StartsWith(NormPath(path), "/") && !StartsWith(NormPath(path), "//")
  {
    SlashPrefixes(path);
    SlashPrefixes(NormPath(path));
    assert "."[0] != '/';
    if path != "" {
      var slashes := InitialSlashes(path);
      var stack := Resolve(Split(path, '/'), slashes.Rooted());
      NormPathStackCanonical(path);
      RenderSlashes(slashes, stack);
      assert NormPath(path) == Render(slashes, stack);
    }
  }

  /**
   After its leading slashes, a normal form is `.`, empty (the root itself),
   or slash-separated components that are canonical: none empty, none `.`, no
   `..` under a root, and in a relative path the `..`s come first.
   */
  lemma NormPathShape(path: string)
    ensures var r := NormPath(path);
      var k := |InitialSlashes(path).Prefix()|;
      && k <= |r|
      && r[..k] == InitialSlashes(path).Prefix()
      && (r == "." || r[k..] == "" || Canonical(Split(r[k..], '/'), InitialSlashes(path).Rooted()))
  {
    if path != "" {
      var slashes := InitialSlashes(path);
      var stack := Resolve(Split(path, '/'), slashes.Rooted());
      NormPathStackCanonical(path);
      JoinedCanonical(stack, slashes.Rooted());
      var r := NormPath(path);
      var j := Join(stack, "/");
      if r != "." {
        assert r == slashes.Prefix() + j;
        assert r[|slashes.Prefix()|..] == j;
        if j != "" {
          SplitJoin(stack, '/');
        }
      }
    }
  }

  /** Normalisation invents no names: every component of the result is a component of the input. */
  lemma NormPathComponentsFromInput(path: string)
    ensures var r := NormPath(path);
      var k := |InitialSlashes(path).Prefix()|;
      && k <= |r|
      && (r == "." || r[k..] == "" ||
          forall c | c in Split(r[k..], '/') :: c in Split(path, '/'))
  {
    NormPathShape(path);
    if path != "" {
      var slashes := InitialSlashes(path);
      var stack := Resolve(Split(path, '/'), slashes.Rooted());
      NormPathStackCanonical(path);
      JoinedCanonical(stack, slashes.Rooted());
      ResolveFromInput([], Split(path, '/'), slashes.Rooted());
      var r := NormPath(path);
      var j := Join(stack, "/");
      if r != "." {
        assert r[|slashes.Prefix()|..] == j;
        if j != "" {
          SplitJoin(stack, '/');
        }
      }
    }
  }

  /** `.` is its own normal form. */
  lemma NormPathDot()
    ensures NormPath(".") == "."
  {
    assert "."[0] != '/';
    SplitNoSep(".", '/');
    assert !StartsWith(".", "/") by {
      assert "."[..1] == ".";
    }
    assert ResolveFrom([], ["."], false) == ResolveFrom([], [], false);
  }

  /** Normalisation is idempotent. */
  lemma NormPathIdempotent(path: string)
    ensures NormPath(NormPath(path)) == NormPath(path)
  {
    if path == "" {
      NormPathDot();
    } else {
      var slashes := InitialSlashes(path);
      NormPathStackCanonical(path);
      RenderReparses(slashes, Resolve(Split(path, '/'), slashes.Rooted()));
    }
  }

  /** Normalising a path given as its slash-separated components. */
  lemma NormPathOfJoined(path: string, comps: seq<string>, slashes: Slashes, stack: seq<string>)
    requires |comps| > 0
    requires forall i | 0 <= i < |comps| :: '/' !in comps[i]
    requires Join(comps, "/") == path && path != ""
    requires InitialSlashes(path) == slashes
    requires Resolve(comps, slashes.Rooted()) == stack
    ensures NormPath(path) == Render(slashes, stack)
  {
    SplitJoin(comps, '/');
  }

  /** A path whose first character is not a slash is relative. */
  lemma RelativeSlashes(path: string)
    requires |path| > 0 && path[0] != '/'
    ensures InitialSlashes(path) == NoSlash
  {
    SlashPrefixes(path);
  }

  /** `""` and `.` both normalise to `.`. */
  lemma NormPathExampleDot()
    ensures NormPath("") == "."
    ensures NormPath(".") == "."
  {
    NormPathDot();
  }

  /** Exactly two leading slashes are kept: `//` is its own normal form. */
  lemma NormPathExampleTwoSlashes()
    ensures NormPath("//") == "//"
  {
    assert Render(TwoSlashes, []) == "//";
    RenderReparses(TwoSlashes, []);
  }

  /** `//a/b` is its own normal form. */
  lemma NormPathExampleTwoSlashesPath()
    ensures NormPath("//a/b") == "//a/b"
  {
    assert Render(TwoSlashes, ["a", "b"]) == "//a/b";
    RenderReparses(TwoSlashes, ["a", "b"]);
  }

  /** Three leading slashes collapse to one. */
  lemma NormPathExampleThreeSlashes()
    ensures NormPath("///") == "/"
  {
    var path := "///";
    var comps := ["", "", "", ""];
    assert Join(comps, "/") == path;
    SlashPrefixes(path);
    assert Resolve(comps, true) == [];
    NormPathOfJoined(path, comps, OneSlash, []);
    assert Render(OneSlash, []) == "/";
  }

  /** Four leading slashes collapse to one. */
  lemma NormPathExampleFourSlashes()
    ensures NormPath("////a") == "/a"
  {
    var path := "////a";
    var comps := ["", "", "", "", "a"];
    assert Join(comps, "/") == path;
    SlashPrefixes(path);
    assert Resolve(comps, true) == ["a"];
    NormPathOfJoined(path, comps, OneSlash, ["a"]);
    assert Render(OneSlash, ["a"]) == "/a";
  }

  /** A component that names a file or directory: proper and not `..`. */
  predicate Ordinary(c: string) {
    ProperComp(c) && c != ".."
  }

  /** The fold over `x`, `y`, `..`, `z`, `.`, `w`: `..` pops `y`, `.` is skipped. */
  lemma ResolveParentAndDot(x: string, y: string, z: string, w: string)
    requires Ordinary(x) && Ordinary(y) && Ordinary(z) && Ordinary(w)
    ensures Resolve([x, y, "..", z, ".", w], false) == [x, z, w]
  {
    assert Step([], x, false) == [x];
    assert Step([x], y, false) == [x, y];
    assert Step([x, y], "..", false) == [x] by {
      assert [x, y][..1] == [x];
    }
    assert Step([x], z, false) == [x, z];
    assert Step([x, z], ".", false) == [x, z];
    assert Step([x, z], w, false) == [x, z, w];
    assert ResolveFrom([x, z], [w], false) == [x, z, w];
    assert [".", w][1..] == [w];
    assert [z, ".", w][1..] == [".", w];
    assert ["..", z, ".", w][1..] == [z, ".", w];
    assert [y, "..", z, ".", w][1..] == ["..", z, ".", w];
    assert [x, y, "..", z, ".", w][1..] == [y, "..", z, ".", w];
    assert ResolveFrom([x, z], [".", w], false) == [x, z, w];
    assert ResolveFrom([x], [z, ".", w], false) == [x, z, w];
    assert ResolveFrom([x, y], ["..", z, ".", w], false) == [x, z, w];
    assert ResolveFrom([x], [y, "..", z, ".", w], false) == [x, z, w];
  }

  /** The path `x/y/../z/./w` as the join of its components. */
  lemma JoinParentAndDot(x: string, y: string, z: string, w: string)
    ensures Join([x, y, "..", z, ".", w], "/") == x + "/" + y + "/../" + z + "/./" + w
  {
    var comps := [x, y, "..", z, ".", w];
    assert Join(comps[4..], "/") == "./" + w;
    assert Join(comps[3..], "/") == z + "/./" + w;
    assert Join(comps[2..], "/") == "../" + z + "/./" + w;
    assert Join(comps[1..], "/") == y + "/../" + z + "/./" + w;
  }

  /**
   For any ordinary components, `..` cancels the component before it and `.`
   disappears: `x/y/../z/./w` normalises to `x/z/w`.
   */
  lemma NormPathParentAndDot(x: string, y: string, z: string, w: string)
    requires Ordinary(x) && Ordinary(y) && Ordinary(z) && Ordinary(w)
    ensures NormPath(x + "/" + y + "/../" + z + "/./" + w) == x + "/" + z + "/" + w
  {
    var path := x + "/" + y + "/../" + z + "/./" + w;
    JoinParentAndDot(x, y, z, w);
    assert path[0] == x[0];
    RelativeSlashes(path);
    ResolveParentAndDot(x, y, z, w);
    NormPathOfJoined(path, [x, y, "..", z, ".", w], NoSlash, [x, z, w]);
    JoinThree(x, z, w, "/");
    assert NoSlash.Prefix() + (x + "/" + z + "/" + w) == x + "/" + z + "/" + w;
  }

  /** `a/b/../c/./d` normalises to `a/c/d`. */
  lemma NormPathExampleParentAndDot()
    ensures NormPath("a/b/../c/./d") == "a/c/d"
  {
    NormPathParentAndDot("a", "b", "c", "d");
    assert "a" + "/" + "b" + "/../" + "c" + "/./" + "d" == "a/b/../c/./d";
    assert "a" + "/" + "c" + "/" + "d" == "a/c/d";
  }

  /** `..` directly under the root is dropped: `/../x` normalises to `/x`. */
  lemma NormPathRootParent(x: string)
    requires Ordinary(x)
    ensures NormPath("/../" + x) == "/" + x
  {
    var path := "/../" + x;
    JoinThree("", "..", x, "/");
    assert "" + "/" + ".." + "/" + x == path;
    SlashPrefixes(path);
    assert path[0] == '/' && path[1] == '.';
    assert Resolve(["", "..", x], true) == [x] by {
      assert Step([], "", true) == [] && Step([], "..", true) == [];
      assert Step([], x, true) == [x];
      assert ResolveFrom([], [x], true) == [x];
      assert ["..", x][1..] == [x];
      assert ResolveFrom([], ["..", x], true) == [x];
      assert ["", "..", x][1..] == ["..", x];
    }
    NormPathOfJoined(path, ["", "..", x], OneSlash, [x]);
  }

  /** A leading `..` of a relative path is kept: `../x` is its own normal form. */
  lemma NormPathRelativeParent(x: string)
    requires Ordinary(x)
    ensures NormPath("../" + x) == "../" + x
  {
    var path := "../" + x;
    assert Join(["..", x], "/") == path;
    RelativeSlashes(path);
    assert Resolve(["..", x], false) == ["..", x] by {
      assert Step([], "..", false) == [".."];
      assert Step([".."], x, false) == ["..", x];
      assert ResolveFrom([".."], [x], false) == ["..", x];
      assert ["..", x][1..] == [x];
    }
    NormPathOfJoined(path, ["..", x], NoSlash, ["..", x]);
    assert Join(["..", x], "/") == path;
  }

  /** An empty component between two separators disappears: `x//y` normalises to `x/y`. */
  lemma NormPathEmptyComponent(x: string, y: string)
    requires Ordinary(x) && Ordinary(y)
    ensures NormPath(x + "//" + y) == x + "/" + y
  {
    var path := x + "//" + y;
    JoinThree(x, "", y, "/");
    assert x + "/" + "" + "/" + y == path;
    assert path[0] == x[0];
    RelativeSlashes(path);
    assert Resolve([x, "", y], false) == [x, y] by {
      assert ResolveFrom([x], [y], false) == [x, y];
      assert ["", y][1..] == [y];
      assert ResolveFrom([x], ["", y], false) == [x, y];
      assert [x, "", y][1..] == ["", y];
      assert Step([], x, false) == [x];
    }
    NormPathOfJoined(path, [x, "", y], NoSlash, [x, y]);
    assert Join([x, y], "/") == x + "/" + y by {
      assert [x, y][1..] == [y];
    }
    assert NoSlash.Prefix() + (x + "/" + y) == x + "/" + y;
  }

  /** The fold over `x`, `.`, `y`, `..`, `z`: `.` is skipped and `..` pops `y`. */
  lemma ResolveDotThenParent(x: string, y: string, z: string)
    requires Ordinary(x) && Ordinary(y) && Ordinary(z)
    ensures Resolve([x, ".", y, "..", z], false) == [x, z]
  {
    assert Step([], x, false) == [x];
    assert Step([x], ".", false) == [x];
    assert Step([x], y, false) == [x, y];
    assert Step([x, y], "..", false) == [x] by {
      assert [x, y][..1] == [x];
    }
    assert Step([x], z, false) == [x, z];
    assert ResolveFrom([x], [z], false) == [x, z];
    assert ["..", z][1..] == [z];
    assert [y, "..", z][1..] == ["..", z];
    assert [".", y, "..", z][1..] == [y, "..", z];
    assert [x, ".", y, "..", z][1..] == [".", y, "..", z];
    assert ResolveFrom([x, y], ["..", z], false) == [x, z];
    assert ResolveFrom([x], [y, "..", z], false) == [x, z];
    assert ResolveFrom([x], [".", y, "..", z], false) == [x, z];
  }

  /** The path `x/./y/../z` as the join of its components. */
  lemma JoinDotThenParent(x: string, y: string, z: string)
    ensures Join([x, ".", y, "..", z], "/") == x + "/./" + y + "/../" + z
  {
    var comps := [x, ".", y, "..", z];
    assert Join(comps[3..], "/") == "../" + z;
    assert Join(comps[2..], "/") == y + "/../" + z;
    assert Join(comps[1..], "/") == "./" + y + "/../" + z;
  }

  /** For ordinary components, `x/./y/../z` normalises to `x/z`. */
  lemma NormPathDotThenParent(x: string, y: string, z: string)
    requires Ordinary(x) && Ordinary(y) && Ordinary(z)
    ensures NormPath(x + "/./" + y + "/../" + z) == x + "/" + z
  {
    var path := x + "/./" + y + "/../" + z;
    JoinDotThenParent(x, y, z);
    assert path[0] == x[0];
    RelativeSlashes(path);
    ResolveDotThenParent(x, y, z);
    NormPathOfJoined(path, [x, ".", y, "..", z], NoSlash, [x, z]);
    assert Join([x, z], "/") == x + "/" + z by {
      assert [x, z][1..] == [z];
    }
    assert NoSlash.Prefix() + (x + "/" + z) == x + "/" + z;
  }

  /** `a/./b/../c` normalises to `a/c`. */
  lemma NormPathExampleDotThenParent()
    ensures NormPath("a/./b/../c") == "a/c"
  {
    NormPathDotThenParent("a", "b", "c");
    assert "a" + "/./" + "b" + "/../" + "c" == "a/./b/../c";
    assert "a" + "/" + "c" == "a/c";
  }

  /** `/../a` normalises to `/a`. */
  lemma NormPathExampleRootParent()
    ensures NormPath("/../a") == "/a"
  {
    NormPathRootParent("a");
    assert "/../" + "a" == "/../a";
    assert "/" + "a" == "/a";
  }

  /** `../a` is its own normal form. */
  lemma NormPathExampleRelativeParent()
    ensures NormPath("../a") == "../a"
  {
    NormPathRelativeParent("a");
    assert "../" + "a" == "../a";
  }
}
