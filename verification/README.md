# Virtual-filesystem paths and list formatting, in Dafny

This project models three pure string helpers from `utils.py` and proves
properties about them:

- `vfs_construct_path(a, *p)` joins a base path with further segments, as POSIX
  `os.path.join` does. A segment that starts with `/` throws away everything
  accumulated so far. Any other segment is appended, with a `/` between the two
  only when the path so far is non-empty and does not already end with `/`.
  Nothing is normalised.
- `vfs_normpath(path)` is a copy of POSIX `posixpath.normpath`. It keeps none,
  one or two leading slashes: exactly two are kept, and three or more collapse
  to one. It then splits the path on `/` and drops empty and `.` components.
  It resolves `..` against a stack. A `..` that cannot cancel a parent is kept
  in a relative path and dropped under a root. It answers `.` instead of the
  empty string.
- `get_comma_sep_string_from_list(items)` writes a list as an English
  enumeration: the empty string, `x`, `x and y`, `x, y and z`.

Strings are `seq<char>`. The files are:

- `text.dfy` (module `Text`): the Python string primitives the helpers use.
  These are `startswith`, `endswith`, `sep.join` and `str.split` on a single
  character, with the round trips between `split` and `join`.
- `vfs_join.dfy` (module `VfsJoin`): the joiner. `ConstructPath` is a pure
  recursive definition and `ConstructPathLoop` is the source's loop.
- `vfs_norm.dfy` (module `VfsNorm`): the normaliser.
  - The count of leading slashes is a datatype, `Slashes`.
  - The component loop is a left fold, `ResolveFrom`, of one iteration, `Step`,
    over a stack.
  - `NormPath` is the pure definition and `NormPathLoop` is the source's loop.
  - The predicate `Canonical` describes the stacks that can come out of the
    fold. This is what makes normalisation idempotent.
  - The root itself (`/` or `//`) has nothing after its slashes. Splitting
    nothing gives one empty piece, so `NormPathShape` names that case
    separately from the canonical components.
- `vfs_pipeline.dfy` (module `VfsPipeline`): the joiner and the normaliser used
  together, as callers use them.
- `comma_sep.dfy` (module `CommaSep`): the list formatter, plus an independent
  item-by-item definition, `Enumeration`, that it is proved equal to.

## Model

| member | source | states |
|---|---|---|
| Text.Split | utils.py:376 | `path.split('/')` yields one more piece than there are slashes, and no piece contains a slash |
| Text.JoinSplit | utils.py:376 | splitting on `/` loses nothing: joining the pieces with `/` gives back the original string |
| Text.Join | utils.py:387 | the empty list joins to the empty string; a non-empty join starts with the first part |
| Text.SplitJoin | utils.py:376-387 | splitting the `/`-join of one or more slash-free components gives back exactly those components |
| VfsJoin.Append | utils.py:355-360 | one iteration: the new path ends with the segment; an absolute segment replaces the path; a relative one keeps the old path as a prefix |
| VfsJoin.ConstructPath | utils.py:351-361 | with no segments the base comes back unchanged; otherwise the result ends with the last segment |
| VfsJoin.ConstructPathLoop | utils.py:351-361 | the loop of the source computes the same path as the recursive definition |
| VfsJoin.ConstructPathSnoc | utils.py:357-360 | one more segment at the end applies the appending rule to the path so far: a relative segment is appended directly when that path is empty or ends with `/`, and after a `/` otherwise |
| VfsJoin.ConstructPathReset | utils.py:355-356 | if segment `i` starts with `/`, the result is the join of segment `i` with the segments after it; nothing before it survives |
| VfsJoin.ConstructPathKeepsBase | utils.py:353-360 | with no absolute segment, the base is a prefix of the result |
| VfsJoin.ConstructPathIsJoin | utils.py:353-361 | when the base is non-empty and has no trailing `/`, and the segments are non-empty, relative and without a trailing `/`, the join is `'/'.join` of them all |
| VfsJoin.ConstructPathExampleThree | utils.py:351-361 | `("a", "b", "c")` gives `a/b/c` |
| VfsJoin.ConstructPathExampleTrailingSlash | utils.py:357-358 | `("a/", "b")` gives `a/b`, with no doubled slash |
| VfsJoin.ConstructPathExampleEmptySegment | utils.py:359-360 | `("a", "")` gives `a/` |
| VfsJoin.ConstructPathExampleAbsolute | utils.py:355-356 | `("a", "/b")` gives `/b` |
| VfsJoin.ConstructPathExampleParent | utils.py:351-361 | `("a/b", "../c", "./d")` gives `a/b/../c/./d`: `..` and `.` pass through unresolved |
| VfsNorm.Slashes.Prefix | utils.py:388-389 | the prefix is 0, 1 or 2 slashes and nothing else: none for a relative path, exactly two for `TwoSlashes` |
| VfsNorm.NormPath | utils.py:364-390 | the result is never empty, and the empty path normalises to `.` |
| VfsNorm.NormPathLoop | utils.py:364-390 | the loop of the source, with its growable stack, computes the same result as the fold definition |
| VfsNorm.StepCanonical | utils.py:379-385 | one iteration of the component loop keeps the stack canonical |
| VfsNorm.ResolveCanonical | utils.py:377-386 | the stack the loop builds from slash-free components is canonical: only proper components, no `..` under a root, and in a relative path the `..`s come first |
| VfsNorm.ResolveFixesCanonical | utils.py:378-385 | feeding the loop a canonical sequence of components rebuilds exactly that sequence |
| VfsNorm.ResolveFromInput | utils.py:378-385 | every component left on the stack was already on it or among the input components |
| VfsNorm.RenderSlashes | utils.py:370-390 | rendering a canonical stack behind 0, 1 or 2 slashes gives a path with that same count of leading slashes |
| VfsNorm.RenderReparses | utils.py:364-390 | a canonical stack rendered behind its slashes is already in normal form |
| VfsNorm.NormPathStackCanonical | utils.py:370-386 | the stack behind every normal form is canonical |
| VfsNorm.NormPathLeadingSlashes | utils.py:370-389 | no leading slash stays none; exactly `//` stays exactly two; any other leading slashes, `///` included, become exactly one |
| VfsNorm.NormPathShape | utils.py:376-390 | after its leading slashes, a result is `.`, nothing (the root), or components that are canonical: none empty, none `.`, no `..` under a root, `..`s first in a relative path |
| VfsNorm.NormPathComponentsFromInput | utils.py:376-387 | normalisation invents no names: every component of the result is a component of the input |
| VfsNorm.NormPathDot | utils.py:376-390 | `.` normalises to itself |
| VfsNorm.NormPathIdempotent | utils.py:364-390 | normalising twice gives the same result as normalising once, for every path |
| VfsNorm.NormPathParentAndDot | utils.py:376-387 | for ordinary components, `x/y/../z/./w` normalises to `x/z/w` |
| VfsNorm.NormPathDotThenParent | utils.py:376-387 | for ordinary components, `x/./y/../z` normalises to `x/z` |
| VfsNorm.NormPathRootParent | utils.py:381-385 | `..` directly under the root is dropped: `/../x` normalises to `/x` |
| VfsNorm.NormPathRelativeParent | utils.py:381-383 | a leading `..` of a relative path is kept: `../x` is its own normal form |
| VfsNorm.NormPathEmptyComponent | utils.py:379-380 | a doubled slash inside a path collapses: `x//y` normalises to `x/y` |
| VfsNorm.NormPathExampleDot | utils.py:368-369 | the empty path and `.` both normalise to `.` |
| VfsNorm.NormPathExampleTwoSlashes | utils.py:373-375 | `//` is its own normal form |
| VfsNorm.NormPathExampleTwoSlashesPath | utils.py:373-375 | `//a/b` is its own normal form |
| VfsNorm.NormPathExampleThreeSlashes | utils.py:370-375 | `///` normalises to `/` |
| VfsNorm.NormPathExampleFourSlashes | utils.py:370-375 | `////a` normalises to `/a` |
| VfsNorm.NormPathExampleParentAndDot | utils.py:376-387 | `a/b/../c/./d` normalises to `a/c/d` |
| VfsNorm.NormPathExampleDotThenParent | utils.py:376-387 | `a/./b/../c` normalises to `a/c` |
| VfsNorm.NormPathExampleRootParent | utils.py:381-385 | `/../a` normalises to `/a` |
| VfsNorm.NormPathExampleRelativeParent | utils.py:381-383 | `../a` is its own normal form |
| VfsPipeline.ConstructPathAbsolute | utils.py:355-356 | once any segment is absolute, the joined path is absolute |
| VfsPipeline.NormalisedJoinIsAbsolute | utils.py:351-375 | joining with any absolute segment and then normalising gives a path that starts with `/` |
| VfsPipeline.ConstructPathParentAndDot | utils.py:355-360 | joining `x/y` with `../z` and `./w` keeps `..` and `.` verbatim |
| VfsPipeline.JoinThenNormalise | utils.py:351-390 | for ordinary components, joining `x/y` with `../z` and `./w` and then normalising gives `x/z/w` |
| VfsPipeline.JoinThenNormaliseExample | utils.py:351-390 | `vfs_normpath(vfs_construct_path("a/b", "../c", "./d"))` is `a/c/d` |
| CommaSep.CommaSepString | utils.py:171-180 | the empty list gives the empty string; one item gives that item; otherwise the result starts with the first item and ends with ` and ` and the last item |
| CommaSep.CommaSepIsEnumeration | utils.py:171-180 | the formatter equals the item-by-item enumeration: every item but the last two followed by `, `, and the last two linked by ` and ` |
| CommaSep.CommaSepLength | utils.py:180 | for two or more items, the result is as long as all the items together plus one ` and ` and a `, ` for every item after the second |
| CommaSep.CommaSepExamples | utils.py:171-180 | `[]`, `["x"]`, `["x", "y"]` and `["x", "y", "z"]` give the empty string, `x`, `x and y` and `x, y and z` |

## Left out

- The `str` versus `unicode` distinction in `vfs_normpath` (utils.py:367). It picks the type of `/` and `.` only, so every string here is `seq<char>`.
- The Python type of `initial_slashes` (utils.py:370, 375, 389). It is a bool or the integer 2, and `'/' * True` is `'/'`. The model uses a datatype with three values, `NoSlash`, `OneSlash` and `TwoSlashes`, which gives the same prefixes.
- Dynamic typing. The helpers accept any Python object. The model takes strings, and a sequence of strings for the list formatter.
- `get_file_contents`, `get_exploration_components_from_dir`, `get_exploration_components_from_zip` and `convert_png_to_data_url`. These are filesystem, directory-walk and zip-archive I/O.
- `yaml_from_dict` and `dict_from_yaml`. These are thin wrappers over a YAML library whose code is not part of this model.
- `to_ascii`. It depends on Unicode NFKD normalisation from `unicodedata`, which is not part of this model.
- `convert_to_hash`, `base64_from_int` and `generate_random_string`. These wrap SHA-1, base64 and the operating system's random source.
- `get_random_int` and `get_random_choice`. These are nondeterministic.
- The time helpers. They read the wall clock and use floating-point millisecond arithmetic.
- `set_url_query_parameter`. It delegates to the URL parsing and encoding library.
- `JSONEncoderForHTML`. It is a subclass of the library JSON encoder.
- `camelcase_to_hyphenated`. Its meaning rests on regular-expression substitution semantics.
- `create_enum`, `verify_dict_keys_and_types` and `recursively_remove_key`. They rely on runtime type inspection and on in-place mutation of arbitrary objects.
