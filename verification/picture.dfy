/** The `picture` directive of theme/extensions/picture.py: a light and a
    dark image are copied into the build's `_images` directory and the
    template receives paths to them relative to the page, together with
    the alternate text, alignment, figure class and caption. */
module Picture {
  import opened Wrappers
  import opened Strings
  import opened Paths

  /** The alignments the directive accepts. */
  const ALLOWED: seq<string> := ["left", "center", "right", "top", "middle", "bottom", "default"]

  /** The options as docutils hands them over: `figclass` and `class` are
      already lists of class names. */
  datatype Options = Options(light: Option<string>, dark: Option<string>, alt: Option<string>,
                             align: Option<string>, figclass: Option<seq<string>>,
                             klass: Option<seq<string>>)

  /** A figure class value: a list of names, or the "" the directive falls
      back to. */
  datatype ClassValue = Names(names: seq<string>) | NoNames

  /** The attributes of the node the template renders. */
  datatype Attributes = Attributes(light: string, dark: string, alt: string, align: string,
                                   figclass: ClassValue, caption: string)

  datatype PictureError =
    | MissingOption(name: string)     // `self.options["light"]` / `["dark"]` raise KeyError
    | CopyFailed(src: string)         // `_copy` turns an OSError into a directive error
    | AlignNotAllowed(align: string)  // the `assert align in allowed`

  /** `"../" * depth if depth else ""`, with the depth the number of "/" in
      the document name. */
  function Prefix(docname: string): (r: string)
    ensures |r| == 3 * Count(docname, '/')
    // One "../" per directory level.
    ensures forall k :: 0 <= k < |r| ==> r[k] == "../"[k % 3]
  {
    var depth := Count(docname, '/');
    if depth != 0 then
      var r := Repeat("../", depth);
      assert forall k :: 0 <= k < |r| ==> r[k] == "../"[k % 3] by {
        forall k | 0 <= k < |r| ensures r[k] == "../"[k % 3] {
          UpAt(depth, k);
        }
      }
      r
    else ""
  }

  /** "../" written out `n` times repeats it character by character. */
  lemma {:induction false} UpAt(n: nat, k: nat)
    requires k < |Repeat("../", n)|
    ensures Repeat("../", n)[k] == "../"[k % 3]
    decreases n
  {
    if k >= 3 {
      UpAt(n - 1, k - 3);
    }
  }

  /** Where the template points for an image: the `_images` directory,
      reached from the page, and the image's file name. */
  function ImagePath(docname: string, resolved: string): string {
    Prefix(docname) + "_images/" + Basename(resolved)
  }

  /** `directive.run`. `docDir` is the directory of the page's source file
      and `copied` says whether copying a resolved image succeeded. */
  function Run(docname: string, docDir: string, opts: Options, content: seq<string>,
               copied: string -> bool): (r: Result<Attributes, PictureError>)
    ensures opts.light.None? <==> r == Err(MissingOption("light"))
    ensures opts.light.Some? && opts.dark.None? <==> r == Err(MissingOption("dark"))
    ensures r.Err? && r.error.AlignNotAllowed? <==>
      && opts.light.Some? && opts.dark.Some?
      && copied(Normpath(PathJoin(docDir, opts.light.value)))
      && copied(Normpath(PathJoin(docDir, opts.dark.value)))
      && opts.align.Some? && opts.align.value !in ALLOWED
    // Both images are copied before anything is rendered; the light one is
    // tried first.
    ensures opts.light.Some? && opts.dark.Some? ==>
      var light := Normpath(PathJoin(docDir, opts.light.value));
      var dark := Normpath(PathJoin(docDir, opts.dark.value));
      && (!copied(light) <==> r == Err(CopyFailed(light)))
      && (copied(light) && !copied(dark) ==> r == Err(CopyFailed(dark)))
      && (r.Ok? ==> copied(light) && copied(dark))
    ensures r.Ok? && content == [] ==> r.value.caption == ""
    ensures r.Ok? ==>
      && opts.light.Some? && opts.dark.Some?
      && r.value.align in ALLOWED
      && r.value.align == (if opts.align.Some? then opts.align.value else "default")
      && r.value.alt == (if opts.alt.Some? then opts.alt.value else "")
      && r.value.figclass == (if opts.figclass.Some? then Names(opts.figclass.value)
                              else if opts.klass.Some? then Names(opts.klass.value)
                              else NoNames)
    // A light or dark option naming a file keeps that file name under `_images`.
    ensures r.Ok? && Plain(Basename(opts.light.value)) ==>
      r.value.light == Prefix(docname) + "_images/" + Basename(opts.light.value)
    ensures r.Ok? && Plain(Basename(opts.dark.value)) ==>
      r.value.dark == Prefix(docname) + "_images/" + Basename(opts.dark.value)
  {
    if opts.light.None? then Err(MissingOption("light"))
    else if opts.dark.None? then Err(MissingOption("dark"))
    else
      var light := Normpath(PathJoin(docDir, opts.light.value));
      var dark := Normpath(PathJoin(docDir, opts.dark.value));
      if !copied(light) then Err(CopyFailed(light))
      else if !copied(dark) then Err(CopyFailed(dark))
      else
        var klass := if opts.klass.Some? then Names(opts.klass.value) else NoNames;
        var align := opts.align.GetOr("default");
        if align !in ALLOWED then Err(AlignNotAllowed(align))
        else
          ResolvedName(docDir, opts.light.value);
          ResolvedName(docDir, opts.dark.value);
          Ok(Attributes(ImagePath(docname, light), ImagePath(docname, dark), opts.alt.GetOr(""), align,
                        if opts.figclass.Some? then Names(opts.figclass.value) else klass,
                        if content != [] then Join(content, "\n") else ""))
  }

  /** Resolving an option against the page's directory keeps its file name. */
  lemma {:induction false} ResolvedName(docDir: string, option: string)
    ensures Plain(Basename(option)) ==> Basename(Normpath(PathJoin(docDir, option))) == Basename(option)
  {
    if Plain(Basename(option)) {
      JoinBasename(docDir, option);
      NormpathBasename(PathJoin(docDir, option));
    }
  }

  /** The caption holds the content lines, one per line. */
  lemma {:induction false} CaptionLines(docname: string, docDir: string, opts: Options, content: seq<string>,
                     copied: string -> bool)
    requires Run(docname, docDir, opts, content, copied).Ok?
    requires content != [] && forall k :: 0 <= k < |content| ==> '\n' !in content[k]
    ensures Split(Run(docname, docDir, opts, content, copied).value.caption, '\n') == content
  {
    SplitJoin(content, '\n');
  }

  // ---------------------------------------------------------------------
  // The prefix leads from the page back to the build root

  /** The written page of `d1/.../dn/page` sits in the directory `d1/.../dn`
      of the build; from there the image path resolves to the copy under
      the build's `_images`. */
  lemma {:induction false} ImageReachable(dirs: seq<string>, page: string, x: string)
    requires forall k :: 0 <= k < |dirs| ==> Plain(dirs[k]) && '/' !in dirs[k]
    requires Plain(page) && '/' !in page && Plain(x) && '/' !in x
    ensures Normpath(PathJoin(Join(dirs, "/"), Prefix(Join(dirs + [page], "/")) + "_images/" + x))
            == "_images/" + x
  {
    PathAsComponents(dirs, page, x);
    ClimbToImages(dirs, x);
  }

  /** The image path, joined onto the page's directory, written as
      components. */
  lemma {:induction false} PathAsComponents(dirs: seq<string>, page: string, x: string)
    requires forall k :: 0 <= k < |dirs| ==> Plain(dirs[k]) && '/' !in dirs[k]
    requires '/' !in page
    ensures PathJoin(Join(dirs, "/"), Prefix(Join(dirs + [page], "/")) + "_images/" + x)
            == Join(dirs + Dots(|dirs|) + ["_images", x], "/")
  {
    var n := |dirs|;
    var tail := Dots(n) + ["_images", x];
    PrefixOfPage(dirs, page);
    ImageTail(n, x);
    assert tail[0] != [] && tail[0][0] != '/' by {
      if n > 0 {
        assert tail[0] == "..";
      } else {
        assert tail[0] == "_images";
      }
    }
    PageRelative(dirs, tail);
    assert dirs + Dots(n) + ["_images", x] == dirs + tail;
  }

  /** "../" `n` times and the image path, as components. */
  lemma {:induction false} ImageTail(n: nat, x: string)
    ensures Repeat("../", n) + "_images/" + x == Join(Dots(n) + ["_images", x], "/")
  {
    JoinImages(x);
    JoinDots(n, ["_images", x]);
    assert Repeat("../", n) + "_images/" + x == Repeat("../", n) + ("_images/" + x);
  }

  /** Normalising those components leaves `_images/x`. */
  lemma {:induction false} ClimbToImages(dirs: seq<string>, x: string)
    requires forall k :: 0 <= k < |dirs| ==> Plain(dirs[k]) && '/' !in dirs[k]
    requires Plain(x) && '/' !in x
    ensures Normpath(Join(dirs + Dots(|dirs|) + ["_images", x], "/")) == "_images/" + x
  {
    var rest := ["_images", x];
    var comps := dirs + Dots(|dirs|) + rest;
    ComponentsNamed(dirs, Dots(|dirs|), rest);
    NormRelative(comps);
    ClimbBack(dirs, rest);
    RejoinRelative(rest);
    JoinImages(x);
  }

  lemma {:induction false} JoinImages(x: string)
    ensures Join(["_images", x], "/") == "_images/" + x
  {
    assert ["_images", x][1..] == [x];
  }

  lemma {:induction false} ComponentsNamed(a: seq<string>, b: seq<string>, c: seq<string>)
    requires forall k :: 0 <= k < |a| ==> Plain(a[k]) && '/' !in a[k]
    requires forall k :: 0 <= k < |b| ==> b[k] == ".."
    requires forall k :: 0 <= k < |c| ==> Plain(c[k]) && '/' !in c[k]
    requires a + b + c != []
    ensures var comps := a + b + c;
      forall k :: 0 <= k < |comps| ==> '/' !in comps[k] && comps[k] != []
  {
    var comps := a + b + c;
    forall k | 0 <= k < |comps| ensures '/' !in comps[k] && comps[k] != [] {
      if k < |a| {
        assert comps[k] == a[k];
      } else if k < |a| + |b| {
        assert comps[k] == b[k - |a|] == "..";
      } else {
        assert comps[k] == c[k - |a| - |b|];
      }
    }
  }

  /** The relative image path joined onto the page's directory. */
  lemma {:induction false} PageRelative(dirs: seq<string>, tail: seq<string>)
    requires forall k :: 0 <= k < |dirs| ==> Plain(dirs[k]) && '/' !in dirs[k]
    requires tail != [] && tail[0] != [] && tail[0][0] != '/'
    ensures PathJoin(Join(dirs, "/"), Join(tail, "/")) == Join(dirs + tail, "/")
  {
    if dirs != [] {
      DirectoryPath(dirs, tail);
    } else {
      JoinStartsWith(tail, "/");
      assert dirs + tail == tail;
    }
  }

  /** The prefix of a page below `dirs` is one "../" per directory. */
  lemma {:induction false} PrefixOfPage(dirs: seq<string>, page: string)
    requires forall k :: 0 <= k < |dirs| ==> '/' !in dirs[k]
    requires '/' !in page
    ensures Prefix(Join(dirs + [page], "/")) == Repeat("../", |dirs|)
  {
    var parts := dirs + [page];
    assert forall k :: 0 <= k < |parts| ==> '/' !in parts[k];
    CountJoin(parts);
  }

  /** Joining a relative path onto a directory path joins the components. */
  lemma {:induction false} DirectoryPath(dirs: seq<string>, tail: seq<string>)
    requires dirs != [] && tail != [] && dirs[|dirs| - 1] != [] && '/' !in dirs[|dirs| - 1]
    requires tail[0] != [] && tail[0][0] != '/'
    ensures PathJoin(Join(dirs, "/"), Join(tail, "/")) == Join(dirs + tail, "/")
  {
    var d := Join(dirs, "/");
    var t := Join(tail, "/");
    assert d != [] && d[|d| - 1] != '/' by {
      JoinLast(dirs, '/');
      var last := dirs[|dirs| - 1];
      assert d[|d| - 1] == last[|last| - 1];
    }
    assert !StartsWith(t, "/") by {
      JoinStartsWith(tail, "/");
      assert t[0] == tail[0][0];
    }
    assert PathJoin(d, t) == d + "/" + t;
    JoinAppend(dirs, tail, "/");
  }

  /** Joined pieces start with the first piece. */
  lemma {:induction false} JoinStartsWith(parts: seq<string>, sep: string)
    requires parts != []
    ensures StartsWith(Join(parts, sep), parts[0])
  {
    if |parts| > 1 {
      JoinCons(parts[0], parts[1..], sep);
      assert parts == [parts[0]] + parts[1..];
    }
  }

  /** A path written from components free of "/", the first non-empty, is
      relative and normalised from exactly those components. */
  lemma {:induction false} NormRelative(comps: seq<string>)
    requires comps != [] && forall k :: 0 <= k < |comps| ==> '/' !in comps[k] && comps[k] != []
    ensures Normpath(Join(comps, "/")) == Rejoin(0, Fold([], comps, false))
  {
    var path := Join(comps, "/");
    SplitJoin(comps, '/');
    assert path != [] && path[0] != '/' by {
      JoinStartsWith(comps, "/");
      assert path[0] == comps[0][0];
    }
    assert Slashes(path) == 0;
  }

  /** Down the directories, up as many levels, down to the image. */
  lemma {:induction false} ClimbBack(dirs: seq<string>, rest: seq<string>)
    requires forall k :: 0 <= k < |dirs| ==> Plain(dirs[k])
    requires forall k :: 0 <= k < |rest| ==> Plain(rest[k])
    ensures Fold([], dirs + Dots(|dirs|) + rest, false) == rest
  {
    var up := dirs + Dots(|dirs|);
    FoldAppend([], up, rest, false);
    assert Fold([], up, false) == [] by {
      FoldAppend([], dirs, Dots(|dirs|), false);
      FoldPlain([], dirs, false);
      assert [] + dirs == dirs;
      FoldClimb([], dirs, false);
    }
    FoldPlain([], rest, false);
    assert [] + rest == rest;
  }

  /** The rebuilt path of plain components joined by "/". */
  lemma {:induction false} RejoinRelative(rest: seq<string>)
    requires rest != [] && forall k :: 0 <= k < |rest| ==> rest[k] != []
    ensures Rejoin(0, rest) == Join(rest, "/")
  {
    if |rest| > 1 {
      JoinCons(rest[0], rest[1..], "/");
      assert rest == [rest[0]] + rest[1..];
    }
    assert Join(rest, "/") != [];
  }

  // ---------------------------------------------------------------------
  // `_copy`: when an image is copied

  /** A file's modification time and contents. */
  datatype Stamp = Stamp(mtime: real, data: string)

  /** The copy is made when there is no destination yet or the source is
      newer; `shutil.copy2` carries the time over. */
  function Sync(src: Stamp, dest: Option<Stamp>): (r: Stamp)
    ensures r == src || (dest.Some? && r == dest.value)
    ensures r.mtime >= src.mtime || (dest.Some? && r == dest.value)
    ensures dest.None? ==> r == src
    ensures dest.Some? && dest.value.mtime >= src.mtime ==> r == dest.value
    ensures dest.Some? && dest.value.mtime < src.mtime ==> r == src
  {
    if dest.None? || src.mtime > dest.value.mtime then src else dest.value
  }

  /** Building again without touching the source copies nothing. */
  lemma {:induction false} SyncIdempotent(src: Stamp, dest: Option<Stamp>)
    ensures Sync(src, Some(Sync(src, dest))) == Sync(src, dest)
  {
  }
}
