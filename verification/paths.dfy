/** The parts of Python's `posixpath` the picture directive relies on:
    `join` of two paths, `normpath` and `basename`. */
module Paths {
  import opened Strings

  /** A path component that names something: not empty, not "." or "..". */
  predicate Plain(comp: string) {
    comp != "" && comp != "." && comp != ".."
  }

  /** `posixpath.basename`: the text after the last "/". */
  function Basename(p: string): (r: string)
    ensures '/' !in r && EndsWith(p, r)
    ensures |r| < |p| ==> p[|p| - |r| - 1] == '/'
  {
    AfterLast(p, '/')
  }

  /** `posixpath.join(a, b)`: an absolute `b` replaces `a`; otherwise "/"
      is put between them unless `a` is empty or already ends with one. */
  function PathJoin(a: string, b: string): (r: string)
    ensures StartsWith(b, "/") ==> r == b
    ensures !StartsWith(b, "/") ==> EndsWith(r, b) && StartsWith(r, a)
  {
    if StartsWith(b, "/") then b
    else if a == [] || a[|a| - 1] == '/' then a + b
    else a + "/" + b
  }

  /** Joining onto a directory keeps the file name. */
  lemma {:induction false} JoinBasename(a: string, b: string)
    ensures Basename(PathJoin(a, b)) == Basename(b)
  {
    if !StartsWith(b, "/") {
      if a == [] || a[|a| - 1] == '/' {
        AfterLastPrefixed(a, b, '/');
      } else {
        AfterLastPrefixed(a + "/", b, '/');
        assert a + "/" + b == (a + "/") + b;
      }
    }
  }

  // ---------------------------------------------------------------------
  // normpath

  /** What `normpath` keeps of the components so far: no empty or "."
      component, no ".." under the root, and ".." only before everything
      else. */
  predicate Normal(acc: seq<string>, rooted: bool) {
    && (forall k :: 0 <= k < |acc| ==> acc[k] != "" && acc[k] != ".")
    && (rooted ==> forall k :: 0 <= k < |acc| ==> acc[k] != "..")
    && (forall i, j :: 0 <= i < j < |acc| && acc[j] == ".." ==> acc[i] == "..")
  }

  /** One component of `normpath`'s loop: "" and "." vanish, ".." removes
      the component before it when there is one to remove, and is kept at
      the front of a relative path. */
  function NormStep(acc: seq<string>, comp: string, rooted: bool): (r: seq<string>)
    ensures Plain(comp) ==> r == acc + [comp]
    ensures Normal(acc, rooted) ==> Normal(r, rooted)
  {
    if comp == "" || comp == "." then acc
    else if comp != ".." || (!rooted && acc == []) || (acc != [] && acc[|acc| - 1] == "..") then acc + [comp]
    else if acc != [] then acc[..|acc| - 1]
    else acc
  }

  /** The loop over all components, left to right. */
  function Fold(acc: seq<string>, comps: seq<string>, rooted: bool): (r: seq<string>)
    ensures Normal(acc, rooted) ==> Normal(r, rooted)
    ensures (forall k :: 0 <= k < |acc| ==> '/' !in acc[k]) && (forall k :: 0 <= k < |comps| ==> '/' !in comps[k])
            ==> forall k :: 0 <= k < |r| ==> '/' !in r[k]
    decreases |comps|
  {
    if comps == [] then acc else Fold(NormStep(acc, comps[0], rooted), comps[1..], rooted)
  }

  /** `posixpath.normpath`: one or two leading slashes are kept (three or
      more become one), the components are folded, and an empty result is
      ".". */
  function Normpath(path: string): (r: string)
    ensures r != []
  {
    if path == [] then "." else Rejoin(Slashes(path), Fold([], Split(path, '/'), Slashes(path) > 0))
  }

  /** The kept slashes and components written back as a path. */
  function Rejoin(n: nat, kept: seq<string>): (r: string)
    ensures r != []
  {
    var r := Repeat("/", n) + Join(kept, "/");
    if r == [] then "." else r
  }

  /** How many leading slashes `normpath` keeps. */
  function Slashes(path: string): (n: nat)
    ensures n <= 2
    ensures n == 0 <==> !StartsWith(path, "/")
  {
    if StartsWith(path, "//") && !StartsWith(path, "///") then 2
    else if StartsWith(path, "/") then 1
    else 0
  }

  /** The components of a normalised relative path are plain, or ".."
      before all plain ones. */
  lemma {:induction false} NormpathComponents(path: string)
    ensures Normal(Fold([], Split(path, '/'), Slashes(path) > 0), Slashes(path) > 0)
  {
  }

  /** Folding two runs of components is folding the first, then the second. */
  lemma {:induction false} FoldAppend(acc: seq<string>, a: seq<string>, b: seq<string>, rooted: bool)
    ensures Fold(acc, a + b, rooted) == Fold(Fold(acc, a, rooted), b, rooted)
    decreases |a|
  {
    if a != [] {
      assert (a + b)[0] == a[0] && (a + b)[1..] == a[1..] + b;
      FoldAppend(NormStep(acc, a[0], rooted), a[1..], b, rooted);
    } else {
      assert a + b == b;
    }
  }

  /** Plain components are all kept. */
  lemma {:induction false} FoldPlain(acc: seq<string>, ps: seq<string>, rooted: bool)
    requires forall k :: 0 <= k < |ps| ==> Plain(ps[k])
    ensures Fold(acc, ps, rooted) == acc + ps
    decreases |ps|
  {
    if ps != [] {
      FoldPlain(acc + [ps[0]], ps[1..], rooted);
      assert acc + [ps[0]] + ps[1..] == acc + ps;
    }
  }

  /** `n` times "..". */
  function Dots(n: nat): (r: seq<string>)
    ensures |r| == n && forall k :: 0 <= k < n ==> r[k] == ".."
  {
    seq(n, _ => "..")
  }

  /** One ".." per plain component climbs back over all of them. */
  lemma {:induction false} FoldClimb(acc: seq<string>, ps: seq<string>, rooted: bool)
    requires forall k :: 0 <= k < |ps| ==> Plain(ps[k])
    ensures Fold(acc + ps, Dots(|ps|), rooted) == acc
    decreases |ps|
  {
    if ps != [] {
      var front := ps[..|ps| - 1];
      assert (acc + ps)[..|acc + ps| - 1] == acc + front;
      assert NormStep(acc + ps, "..", rooted) == acc + front;
      assert Dots(|ps|)[1..] == Dots(|front|);
      FoldClimb(acc, front, rooted);
    }
  }

  /** A path whose last component names a file keeps that name. */
  lemma {:induction false} NormpathBasename(path: string)
    requires Plain(Basename(path))
    ensures Basename(Normpath(path)) == Basename(path)
  {
    var x := Basename(path);
    var comps := Split(path, '/');
    assert comps != [] && comps[|comps| - 1] == x by {
      SplitLast(path, '/');
    }
    var n := Slashes(path);
    var kept := Fold([], comps, n > 0);
    assert kept != [] && kept[|kept| - 1] == x by {
      FoldKeepsLast(comps, n > 0);
    }
    assert Normpath(path) == Rejoin(n, kept);
    RejoinBasename(n, kept);
  }

  lemma {:induction false} RejoinBasename(n: nat, kept: seq<string>)
    requires n <= 2 && kept != [] && Plain(kept[|kept| - 1]) && '/' !in kept[|kept| - 1]
    ensures Basename(Rejoin(n, kept)) == kept[|kept| - 1]
  {
    JoinLast(kept, '/');
    LeadingSlashes(n, Join(kept, "/"));
  }

  /** A plain last component survives the fold as the last one kept. */
  lemma {:induction false} FoldKeepsLast(comps: seq<string>, rooted: bool)
    requires comps != [] && Plain(comps[|comps| - 1]) && '/' !in comps[|comps| - 1]
    ensures var kept := Fold([], comps, rooted);
      kept != [] && kept[|kept| - 1] == comps[|comps| - 1]
  {
    var front := comps[..|comps| - 1];
    var x := comps[|comps| - 1];
    assert comps == front + [x];
    FoldAppend([], front, [x], rooted);
  }

  /** The kept leading slashes do not change the last component. */
  lemma {:induction false} LeadingSlashes(n: nat, body: string)
    requires n <= 2 && AfterLast(body, '/') != []
    ensures Repeat("/", n) + body != []
    ensures AfterLast(Repeat("/", n) + body, '/') == AfterLast(body, '/')
  {
    var slashes := Repeat("/", n);
    if n == 1 {
      assert slashes == "/";
    } else if n == 2 {
      assert slashes == "//";
    }
    AfterLastPrefixed(slashes, body, '/');
  }

  // ---------------------------------------------------------------------
  // Paths written from components

  /** ".." components written with "/" are "../" repeated. */
  lemma {:induction false} JoinDots(n: nat, rest: seq<string>)
    requires rest != []
    ensures Join(Dots(n) + rest, "/") == Repeat("../", n) + Join(rest, "/")
    decreases n
  {
    if n > 0 {
      assert Dots(n) + rest == [".."] + (Dots(n - 1) + rest);
      JoinCons("..", Dots(n - 1) + rest, "/");
      JoinDots(n - 1, rest);
    } else {
      assert Dots(n) + rest == rest;
    }
  }

  /** Components free of "/" joined by it hold one "/" per gap. */
  lemma {:induction false} CountJoin(parts: seq<string>)
    requires parts != []
    requires forall k :: 0 <= k < |parts| ==> '/' !in parts[k]
    ensures Count(Join(parts, "/"), '/') == |parts| - 1
    decreases |parts|
  {
    if |parts| > 1 {
      var rest := Join(parts[1..], "/");
      assert Join(parts, "/") == parts[0] + ("/" + rest);
      CountAppend(parts[0], "/" + rest, '/');
      CountAppend("/", rest, '/');
      CountJoin(parts[1..]);
    }
  }
}
