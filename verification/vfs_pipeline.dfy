/**
 The joiner and the normaliser as callers use them: join first, then
 normalise the joined path.
 */
module VfsPipeline {
  import opened Text
  import opened VfsJoin
  import opened VfsNorm

  /** Once any segment is absolute, the joined path is absolute. */
  lemma {:induction false} ConstructPathAbsolute(base: string, segments: seq<string>, i: nat)
    requires i < |segments|
    requires IsAbsolute(segments[i])
    ensures IsAbsolute(ConstructPath(base, segments))
    decreases |segments| - i
  {
    ConstructPathReset(base, segments, i);
    var rest := segments[i + 1..];
    if j :| i < j < |segments| && IsAbsolute(segments[j]) {
      ConstructPathAbsolute(base, segments, j);
    } else {
      assert forall k | 0 <= k < |rest| :: !IsAbsolute(rest[k]) by {
        forall k | 0 <= k < |rest|
          ensures !IsAbsolute(rest[k])
        {
          assert rest[k] == segments[i + 1 + k];
        }
      }
      ConstructPathKeepsBase(segments[i], rest);
      var r := ConstructPath(segments[i], rest);
      assert r[..1] == r[..|segments[i]|][..1];
    }
  }

  /** Joining with an absolute segment and then normalising gives an absolute path. */
  lemma NormalisedJoinIsAbsolute(base: string, segments: seq<string>, i: nat)
    requires i < |segments|
    requires IsAbsolute(segments[i])
    ensures StartsWith(NormPath(ConstructPath(base, segments)), "/")
  {
    ConstructPathAbsolute(base, segments, i);
    NormPathLeadingSlashes(ConstructPath(base, segments));
  }

  /** Regrouping the joined path `x/y` + `../z` + `./w`. */
  lemma RegroupParentAndDot(x: string, y: string, z: string, w: string)
    ensures x + "/" + y + "/" + ("../" + z) + "/" + ("./" + w) == x + "/" + y + "/../" + z + "/./" + w
  {
  }

  /** Joining `x/y` with `../z` and `./w` keeps `..` and `.` verbatim. */
  lemma ConstructPathParentAndDot(x: string, y: string, z: string, w: string)
    requires ProperComp(x) && ProperComp(y) && ProperComp(z) && ProperComp(w)
    ensures ConstructPath(x + "/" + y, ["../" + z, "./" + w]) == x + "/" + y + "/../" + z + "/./" + w
  {
    PlainSegment(x + "/", y);
    PlainSegment("../", z);
    PlainSegment("./", w);
    ConstructPathTwo(x + "/" + y, "../" + z, "./" + w);
    RegroupParentAndDot(x, y, z, w);
  }

  /**
   Joining leaves `..` and `.` for the normaliser to resolve: for ordinary
   components, `x/y` joined with `../z` and `./w` normalises to `x/z/w`.
   */
  lemma JoinThenNormalise(x: string, y: string, z: string, w: string)
    requires Ordinary(x) && Ordinary(y) && Ordinary(z) && Ordinary(w)
    ensures NormPath(ConstructPath(x + "/" + y, ["../" + z, "./" + w])) == x + "/" + z + "/" + w
  {
    ConstructPathParentAndDot(x, y, z, w);
    NormPathParentAndDot(x, y, z, w);
  }

  /** `vfs_normpath(vfs_construct_path("a/b", "../c", "./d"))` is `a/c/d`. */
  lemma JoinThenNormaliseExample()
    ensures NormPath(ConstructPath("a/b", ["../c", "./d"])) == "a/c/d"
  {
    ConstructPathExampleParent();
    NormPathExampleParentAndDot();
  }
}
