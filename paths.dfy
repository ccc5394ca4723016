/** The directory strings `getDocumentation` works with, on the POSIX separator `/`: the set of
    directories to parse (`validPaths`) and the module name each is expected to declare
    (`componentDirectory`). */
module Paths {
  import opened Text
  import opened Dict

  // ---------------------------------------------------------------------------------------
  // Splitting on the separator

  lemma {:induction false} OccursSlash(s: string, i: nat)
    ensures OccursAt(s, "/", i) <==> i < |s| && s[i] == '/'
  {
    if i < |s| {
      assert s[i..i + 1] == [s[i]];
    }
  }

  /** `s.includes('/')` is membership of the character. */
  lemma {:induction false} ContainsSlash(s: string)
    ensures Contains(s, "/") <==> '/' in s
  {
    if '/' in s {
      var i :| 0 <= i < |s| && s[i] == '/';
      OccursSlash(s, i);
    }
    if Contains(s, "/") {
      var i: nat :| OccursAt(s, "/", i);
      OccursSlash(s, i);
    }
  }

  /** `s.split('/')` has more than one piece exactly when `s` holds a `/`; the pieces but the
      last, joined, are followed in `s` by a `/` and the last piece, which holds none. */
  lemma {:induction false} SplitLast(s: string)
    ensures var ps := Split(s, "/");
      && (|ps| > 1 <==> '/' in s)
      && '/' !in ps[|ps| - 1]
      && (|ps| > 1 ==> s == Join(ps[..|ps| - 1], "/") + "/" + ps[|ps| - 1])
  {
    var ps := Split(s, "/");
    SplitPieces(s, "/");
    ContainsSlash(s);
    ContainsSlash(ps[|ps| - 1]);
    SplitHead(s, "/");
    JoinSplit(s, "/");
    if |ps| > 1 {
      InitLast(ps);
      JoinSnoc(ps[..|ps| - 1], ps[|ps| - 1], "/");
    }
  }

  /** A string with a `/` splits at its last `/` in exactly one way. */
  lemma {:induction false} LastSlashUnique(x1: string, y1: string, x2: string, y2: string)
    requires x1 + "/" + y1 == x2 + "/" + y2
    requires '/' !in y1 && '/' !in y2
    ensures x1 == x2 && y1 == y2
  {
    var s := x1 + "/" + y1;
    assert s[|x1|] == '/' && s[|x2|] == '/';
    assert forall k :: |x1| < k < |s| ==> s[k] == y1[k - |x1| - 1];
    assert forall k :: |x2| < k < |s| ==> s[k] == y2[k - |x2| - 1];
    assert |x1| == |x2|;
    assert x1 == s[..|x1|] && x2 == s[..|x2|];
    assert y1 == s[|x1| + 1..] && y2 == s[|x2| + 1..];
  }

  // ---------------------------------------------------------------------------------------
  // Directories

  /** `path.split('/').slice(0, -1).join('/')`: the directory part of a file name. */
  function DirName(path: string): string
  {
    var ps := Split(path, "/");
    Join(ps[..|ps| - 1], "/")
  }

  /** The directory part is the text before the last `/`, and empty without one. */
  lemma {:induction false} DirNameSpec(path: string)
    ensures var r := DirName(path);
      && ('/' !in path ==> r == "")
      && ('/' in path ==>
            && |r| < |path| && path[..|r|] == r && path[|r|] == '/'
            && '/' !in path[|r| + 1..])
  {
    var ps := Split(path, "/");
    SplitLast(path);
    if |ps| > 1 {
      assert path[|Join(ps[..|ps| - 1], "/")| + 1..] == ps[|ps| - 1];
    } else {
      assert ps[..0] == [];
    }
  }

  /** A file name made of a directory, a `/` and a base name has that directory. */
  lemma {:induction false} DirNameOf(x: string, y: string)
    requires '/' !in y
    ensures DirName(x + "/" + y) == x
  {
    var s := x + "/" + y;
    assert s[|x|] == '/';
    var d := DirName(s);
    DirNameSpec(s);
    assert s == d + "/" + s[|d| + 1..];
    LastSlashUnique(d, s[|d| + 1..], x, y);
  }

  /** `validPaths`: the directory of each file, each directory once, in order of first
      appearance (a JavaScript `Set` keeps insertion order). */
  function ValidPaths(paths: seq<string>): seq<string>
  {
    if paths == [] then []
    else
      var dirs := ValidPaths(paths[..|paths| - 1]);
      var dir := DirName(paths[|paths| - 1]);
      if dir in dirs then dirs else dirs + [dir]
  }

  /** Some file of `paths` lies in `d`. */
  predicate SomeFileIn(paths: seq<string>, d: string)
  {
    exists i :: 0 <= i < |paths| && DirName(paths[i]) == d
  }

  lemma {:induction false} SomeFileInSnoc(paths: seq<string>, d: string)
    requires paths != []
    ensures SomeFileIn(paths, d) <==> SomeFileIn(paths[..|paths| - 1], d) || DirName(paths[|paths| - 1]) == d
  {
    var init := paths[..|paths| - 1];
    if SomeFileIn(paths, d) {
      var i :| 0 <= i < |paths| && DirName(paths[i]) == d;
      if i < |init| {
        assert DirName(init[i]) == d;
      }
    }
    if SomeFileIn(init, d) {
      var i :| 0 <= i < |init| && DirName(init[i]) == d;
      assert DirName(paths[i]) == d;
    }
  }

  /** A directory is in `validPaths` exactly when some file lies in it. */
  lemma {:induction false} ValidPathsMembers(paths: seq<string>, d: string)
    ensures d in ValidPaths(paths) <==> SomeFileIn(paths, d)
  {
    if paths != [] {
      ValidPathsMembers(paths[..|paths| - 1], d);
      SomeFileInSnoc(paths, d);
    }
  }

  /** No directory is parsed twice. */
  lemma {:induction false} ValidPathsDistinct(paths: seq<string>)
    ensures Distinct(ValidPaths(paths))
  {
    if paths != [] {
      var dirs := ValidPaths(paths[..|paths| - 1]);
      var dir := DirName(paths[|paths| - 1]);
      ValidPathsDistinct(paths[..|paths| - 1]);
      if dir !in dirs {
        DistinctSnoc(dirs, dir);
      }
    }
  }

  /** `path.split('/').slice(-2).join('/')`: the last two pieces of the name. */
  function LastTwo(path: string): string
  {
    var ps := Split(path, "/");
    Join(ps[if |ps| >= 2 then |ps| - 2 else 0..], "/")
  }

  /** The last two pieces, joined. */
  lemma {:induction false} JoinLastTwo(ps: seq<string>)
    requires |ps| >= 2
    ensures Join(ps[|ps| - 2..], "/") == ps[|ps| - 2] + "/" + ps[|ps| - 1]
  {
    var t := ps[|ps| - 2..];
    assert |t| == 2 && t[0] == ps[|ps| - 2] && t[1..] == [ps[|ps| - 1]];
  }

  /** The last two pieces are all of a name with at most one `/`, and otherwise what follows the
      `/` before the last one. */
  lemma {:induction false} LastTwoSpec(path: string)
    ensures var d := DirName(path);
      && ('/' !in d ==> LastTwo(path) == path)
      && ('/' in d ==> path == DirName(d) + "/" + LastTwo(path))
  {
    var ps := Split(path, "/");
    var n := |ps|;
    SplitLast(path);
    if n == 1 {
      JoinSplit(path, "/");
      assert ps[0..] == ps;
    } else if n == 2 {
      JoinSplit(path, "/");
      assert ps[0..] == ps;
      assert ps[..1] == [ps[0]];
      SplitPieces(path, "/");
      ContainsSlash(ps[0]);
    } else {
      LastTwoLong(path, ps);
    }
  }

  lemma {:induction false} LastTwoLong(path: string, ps: seq<string>)
    requires ps == Split(path, "/") && |ps| >= 3
    requires path == Join(ps[..|ps| - 1], "/") + "/" + ps[|ps| - 1]
    ensures var d := DirName(path); '/' in d && path == DirName(d) + "/" + LastTwo(path)
  {
    var n := |ps|;
    var x := Join(ps[..n - 2], "/");
    var a, b := ps[n - 2], ps[n - 1];
    SplitPieces(path, "/");
    assert !Contains(a, "/");
    ContainsSlash(a);
    InitLast(ps[..n - 1]);
    assert ps[..n - 1][..n - 2] == ps[..n - 2];
    JoinSnoc(ps[..n - 2], a, "/");
    assert Join(ps[..n - 1], "/") == x + "/" + a;
    assert DirName(path) == x + "/" + a;
    DirNameOf(x, a);
    JoinLastTwo(ps);
    AppendAssoc4(x + "/", a, "/", b);
  }

  /** `s.split(sep)[1]`, with the empty string for a missing piece (both are falsy for `||`). */
  function SecondPiece(s: string, sep: string): string
    requires |sep| > 0
  {
    var ps := Split(s, sep);
    if |ps| > 1 then ps[1] else ""
  }

  /** The text before the first `sep`, or all of `s`. */
  function FirstPiece(s: string, sep: string): string
  {
    match IndexOf(s, sep)
    case None => s
    case Some(j) => s[..j]
  }

  /** The second piece is the text between the first occurrence of `sep` and the next one, or the
      end; there is none without an occurrence. */
  lemma {:induction false} SecondPieceSpec(s: string, sep: string)
    requires |sep| > 0
    ensures IndexOf(s, sep).None? ==> SecondPiece(s, sep) == ""
    ensures IndexOf(s, sep).Some? ==>
      IndexOf(s, sep).value + |sep| <= |s| &&
      SecondPiece(s, sep) == FirstPiece(s[IndexOf(s, sep).value + |sep|..], sep)
  {
    match IndexOf(s, sep)
    case None =>
      SplitHead(s, sep);
    case Some(i) =>
      IndexOfFits(s, sep);
      SplitStep(s, sep);
      SecondPieceStep(s, sep, Split(s, sep), s[i + |sep|..]);
  }

  lemma {:induction false} SecondPieceStep(s: string, sep: string, ps: seq<string>, rest: string)
    requires |sep| > 0 && ps == Split(s, sep)
    requires exists head :: ps == [head] + Split(rest, sep)
    ensures SecondPiece(s, sep) == FirstPiece(rest, sep)
  {
    var head :| ps == [head] + Split(rest, sep);
    SecondOfCons(head, Split(rest, sep));
    SplitHead(rest, sep);
  }

  lemma {:induction false} SecondOfCons(head: string, tail: seq<string>)
    requires |tail| > 0
    ensures ([head] + tail)[1] == tail[0] && |[head] + tail| > 1
  {
  }

  /** `componentDirParts.pop() === 'src'`: a directory named `src` below the component is dropped. */
  function StripSrc(dir: string): string
  {
    var parts := Split(dir, "/");
    if |parts| > 1 && parts[|parts| - 1] == "src" then Join(parts[..|parts| - 1], "/") else dir
  }

  predicate EndsWithSrc(dir: string)
  {
    |dir| >= 4 && dir[|dir| - 4..] == "/src"
  }

  /** A directory ending in `/src` loses that ending, and any other is kept. */
  lemma {:induction false} StripSrcSpec(dir: string)
    ensures EndsWithSrc(dir) ==> StripSrc(dir) + "/src" == dir
    ensures !EndsWithSrc(dir) ==> StripSrc(dir) == dir
  {
    var parts := Split(dir, "/");
    SplitLast(dir);
    StripSrcCases(dir, Join(parts[..|parts| - 1], "/"), parts[|parts| - 1], |parts| > 1, StripSrc(dir));
  }

  /** The `src` check on a name cut at its last `/` into `init` and `last`. */
  lemma {:induction false} StripSrcCases(dir: string, init: string, last: string, multi: bool, r: string)
    requires multi <==> '/' in dir
    requires multi ==> dir == init + "/" + last
    requires '/' !in last
    requires r == if multi && last == "src" then init else dir
    ensures EndsWithSrc(dir) ==> r + "/src" == dir
    ensures !EndsWithSrc(dir) ==> r == dir
  {
    if multi && last == "src" {
      assert "/" + "src" == "/src";
      AppendAssoc(init, "/", "src");
      assert (init + "/src")[|init|..] == "/src";
    } else if EndsWithSrc(dir) {
      assert '/' in dir by { assert dir[|dir| - 4] == '/'; }
      LastPieceSrc(dir, init, last);
    }
  }

  /** A name ending in `/src` has `src` as its last piece. */
  lemma {:induction false} LastPieceSrc(dir: string, init: string, last: string)
    requires dir == init + "/" + last && '/' !in last && EndsWithSrc(dir)
    ensures last == "src"
  {
    var x := dir[..|dir| - 4];
    assert dir == x + dir[|dir| - 4..];
    assert "/" + "src" == "/src";
    AppendAssoc(x, "/", "src");
    assert '/' !in "src";
    LastSlashUnique(x, "src", init, last);
  }

  /** `componentDirectory` for a directory to parse: the text after `packages/`, else after
      `raw/`, else the last two pieces; then a trailing `src` directory is dropped. */
  function ComponentDirectory(path: string): string
  {
    StripSrc(ComponentDirectoryRaw(path))
  }

  /** The choice before the `src` check. */
  function ComponentDirectoryRaw(path: string): string
  {
    var underPackages := SecondPiece(path, "packages/");
    var underRaw := SecondPiece(path, "raw/");
    if underPackages != "" then underPackages
    else if underRaw != "" then underRaw
    else LastTwo(path)
  }
}
