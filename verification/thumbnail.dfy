/** The `thumbnail` directive of theme/extensions/thumbnail.py: the last
    content line is a YouTube link, from which the video id and the
    thumbnail image address are derived and handed to the template. */
module Thumbnail {
  import opened Wrappers
  import opened Strings

  const THUMBNAIL_PREFIX: string := "https://img.youtube.com/vi/"
  const THUMBNAIL_SUFFIX: string := "/hqdefault.jpg"

  /** docutils' `directives.uri` on text without backslashes: every
      whitespace character is dropped. */
  function Uri(s: string): (r: string)
    ensures forall i :: 0 <= i < |r| ==> !IsPySpace(r[i])
    ensures |r| <= |s|
    ensures (forall i :: 0 <= i < |s| ==> !IsPySpace(s[i])) ==> r == s
    ensures forall c :: c in s && !IsPySpace(c) ==> c in r
  {
    if s == [] then []
    else
      var rest := Uri(s[1..]);
      assert forall c :: c in s[1..] ==> c in s;
      assert forall c :: c in s && c != s[0] ==> c in s[1..];
      (if IsPySpace(s[0]) then [] else [s[0]]) + rest
  }

  /** The uri of a concatenation is the concatenation of the uris, so the
      kept characters keep their order and number. */
  lemma {:induction false} UriAppend(a: string, b: string)
    ensures Uri(a + b) == Uri(a) + Uri(b)
  {
    if a == [] {
      assert a + b == b;
    } else {
      assert (a + b)[1..] == a[1..] + b;
      UriAppend(a[1..], b);
    }
  }

  /** One character: kept exactly when it is not whitespace. */
  lemma {:induction false} UriChar(c: char)
    ensures Uri([c]) == (if IsPySpace(c) then [] else [c])
  {
    assert [c][1..] == [];
  }

  /** `sub` occurs at `i` and nowhere before. */
  predicate FirstAt(s: string, sub: string, i: nat) {
    OccursAt(s, sub, i) && forall k :: 0 <= k < i ==> !OccursAt(s, sub, k)
  }

  /** `s.split(sep, 1)[-1]`: the text after the first separator, or the
      whole text when there is none. */
  function AfterFirst(s: string, sep: string): (r: string)
    requires sep != []
    ensures !Contains(s, sep) ==> r == s
    ensures Contains(s, sep) ==>
      |r| + |sep| <= |s| && FirstAt(s, sep, |s| - |r| - |sep|) && r == s[|s| - |r|..]
  {
    match Find(s, sep)
    case None => s
    case Some(i) => s[i + |sep|..]
  }

  /** The short-link id: it starts right after the last "/" and runs up to
      the first "?" or the end. */
  ghost predicate ShortLinkId(src: string, vid: string) {
    && '/' !in vid && '?' !in vid
    && exists j: nat ::
         && j < |src| && src[j] == '/' && '/' !in src[j + 1..]
         && StartsWith(src[j + 1..], vid)
         && (j + 1 + |vid| == |src| || src[j + 1 + |vid|] == '?')
  }

  /** The watch-link id: it starts right after the first "v=" and runs up
      to the first "&" or the end. */
  ghost predicate WatchLinkId(src: string, vid: string) {
    && '&' !in vid
    && exists i: nat ::
         && FirstAt(src, "v=", i)
         && StartsWith(src[i + 2..], vid)
         && (i + 2 + |vid| == |src| || src[i + 2 + |vid|] == '&')
  }

  /** The video id the directive derives from the link. */
  function VideoId(src: string): (vid: string)
    ensures Contains(src, "youtu.be/") ==> ShortLinkId(src, vid)
    ensures !Contains(src, "youtu.be/") && Contains(src, "watch?v=") ==> WatchLinkId(src, vid)
    ensures !Contains(src, "youtu.be/") && !Contains(src, "watch?v=") ==> vid == src
  {
    if Contains(src, "youtu.be/") then
      var tail := AfterLast(src, '/');
      var vid := BeforeFirst(tail, '?');
      ShortLinkWitness(src, tail, vid);
      vid
    else if Contains(src, "watch?v=") then
      WatchHasV(src);
      var after := AfterFirst(src, "v=");
      var vid := BeforeFirst(after, '&');
      WatchLinkWitness(src, after, vid);
      vid
    else src
  }

  lemma {:induction false} ShortLinkWitness(src: string, tail: string, vid: string)
    requires Contains(src, "youtu.be/")
    requires tail == AfterLast(src, '/') && vid == BeforeFirst(tail, '?')
    ensures ShortLinkId(src, vid)
  {
    var i := Find(src, "youtu.be/").value;
    assert i + 9 <= |src| && src[i..i + 9] == "youtu.be/";
    assert src[i + 8] == src[i..i + 9][8] == '/';
    var j := |src| - |tail| - 1;
    assert src[j + 1..] == tail;
  }

  lemma {:induction false} WatchHasV(src: string)
    requires Contains(src, "watch?v=")
    ensures Contains(src, "v=")
  {
    var i := Find(src, "watch?v=").value;
    assert i + 8 <= |src| && src[i..i + 8] == "watch?v=";
    assert src[i + 6..i + 8] == src[i..i + 8][6..8] == "v=";
    assert OccursAt(src, "v=", i + 6);
  }

  lemma {:induction false} WatchLinkWitness(src: string, after: string, vid: string)
    requires Contains(src, "v=")
    requires after == AfterFirst(src, "v=") && vid == BeforeFirst(after, '&')
    ensures WatchLinkId(src, vid)
  {
    var i := |src| - |after| - 2;
    assert src[i + 2..] == after;
  }

  /** The image address of the video's high-quality thumbnail. */
  function ThumbnailUrl(vid: string): (url: string)
    ensures StartsWith(url, THUMBNAIL_PREFIX) && EndsWith(url, THUMBNAIL_SUFFIX)
    ensures |url| == |THUMBNAIL_PREFIX| + |vid| + |THUMBNAIL_SUFFIX|
  {
    THUMBNAIL_PREFIX + vid + THUMBNAIL_SUFFIX
  }

  /** Reads the id back out of a thumbnail address. */
  function ThumbnailVideoId(url: string): (vid: Option<string>)
    ensures vid.Some? <==> |url| >= |THUMBNAIL_PREFIX| + |THUMBNAIL_SUFFIX|
                           && StartsWith(url, THUMBNAIL_PREFIX) && EndsWith(url, THUMBNAIL_SUFFIX)
    ensures vid.Some? ==> url == THUMBNAIL_PREFIX + vid.value + THUMBNAIL_SUFFIX
  {
    if |url| >= |THUMBNAIL_PREFIX| + |THUMBNAIL_SUFFIX|
       && StartsWith(url, THUMBNAIL_PREFIX) && EndsWith(url, THUMBNAIL_SUFFIX)
    then
      var vid := url[|THUMBNAIL_PREFIX|..|url| - |THUMBNAIL_SUFFIX|];
      assert url == url[..|THUMBNAIL_PREFIX|] + vid + url[|url| - |THUMBNAIL_SUFFIX|..];
      Some(vid)
    else None
  }

  /** The thumbnail address determines the video id. */
  lemma {:induction false} ThumbnailRoundTrip(vid: string)
    ensures ThumbnailVideoId(ThumbnailUrl(vid)) == Some(vid)
  {
    var url := ThumbnailUrl(vid);
    assert url[..|THUMBNAIL_PREFIX|] == THUMBNAIL_PREFIX;
    assert url[|url| - |THUMBNAIL_SUFFIX|..] == THUMBNAIL_SUFFIX;
    assert url[|THUMBNAIL_PREFIX|..|url| - |THUMBNAIL_SUFFIX|] == vid;
  }

  datatype DirectiveError = ContentExpected // `assert_has_content` with no content

  /** The template variables the directive renders: the options given, plus
      `src`, `video_id` and `thumbnail`. */
  function Run(content: seq<string>, options: map<string, string>): (r: Result<map<string, string>, DirectiveError>)
    ensures content == [] <==> r == Err(ContentExpected)
    ensures r.Ok? ==>
      var src := Uri(content[|content| - 1]);
      && "thumbnail" in r.value
      && ThumbnailVideoId(r.value["thumbnail"]) == Some(VideoId(src))
      && r.value == WithVideo(options, src, VideoId(src), r.value["thumbnail"])
  {
    if content == [] then Err(ContentExpected)
    else
      var src := Uri(content[|content| - 1]);
      var vid := VideoId(src);
      ThumbnailRoundTrip(vid);
      Ok(WithVideo(options, src, vid, ThumbnailUrl(vid)))
  }

  /** The three entries the directive writes over the options. */
  function WithVideo(options: map<string, string>, src: string, vid: string, thumb: string): (m: map<string, string>)
    ensures m.Keys == options.Keys + {"src", "video_id", "thumbnail"}
    ensures m["src"] == src && m["video_id"] == vid && m["thumbnail"] == thumb
    ensures forall k :: k in options && k !in {"src", "video_id", "thumbnail"} ==> m[k] == options[k]
  {
    options["src" := src]["video_id" := vid]["thumbnail" := thumb]
  }

  // ---------------------------------------------------------------------
  // The two link shapes the directive understands

  const SHORT_LINK: string := "https://youtu.be/"
  const WATCH_LINK: string := "https://www.youtube.com/watch?v="

  /** A short link, with or without a query, yields the id it was built from. */
  lemma {:induction false} ShortLinkRoundTrip(id: string, query: string)
    requires '/' !in id && '?' !in id
    requires query == [] || (query[0] == '?' && '/' !in query)
    ensures VideoId(SHORT_LINK + id + query) == id
  {
    var src := SHORT_LINK + (id + query);
    assert SHORT_LINK + id + query == src;
    assert BeforeFirst(AfterLast(src, '/'), '?') == id by {
      ShortLinkTail(id + query);
      BeforeFirstOf(id, query, '?');
    }
    assert Contains(src, "youtu.be/") by {
      assert OccursAt(src, "youtu.be/", 8);
    }
    ShortLinkVideoId(src);
  }

  lemma {:induction false} ShortLinkVideoId(src: string)
    requires Contains(src, "youtu.be/")
    ensures VideoId(src) == BeforeFirst(AfterLast(src, '/'), '?')
  {
  }

  /** Everything after the short-link prefix is the text after its last "/". */
  lemma {:induction false} ShortLinkTail(rest: string)
    requires '/' !in rest
    ensures AfterLast(SHORT_LINK + rest, '/') == rest
  {
    var src := SHORT_LINK + rest;
    assert src[|src| - |rest|..] == rest;
    assert src[|src| - |rest| - 1] == '/';
    AfterLastUnique(src, '/', rest);
  }

  /** The first "v=" of a watch link is the one after "watch?". */
  lemma {:induction false} WatchLinkFirstV(rest: string)
    ensures forall k :: 0 <= k < 30 ==> !OccursAt(WATCH_LINK + rest, "v=", k)
  {
    var src := WATCH_LINK + rest;
    forall k | 0 <= k < 30 ensures !OccursAt(src, "v=", k) {
      assert src[k] == WATCH_LINK[k] && WATCH_LINK[k] != 'v';
      if k + 2 <= |src| {
        assert src[k..k + 2][0] == src[k];
      }
    }
  }

  /** A watch link with an id free of "&" and "/" splits exactly
      before and after the id, whatever further parameters follow. */
  lemma {:induction false} WatchLinkRoundTrip(id: string, params: string)
    requires '&' !in id && '/' !in id && '/' !in params
    requires params == [] || params[0] == '&'
    ensures VideoId(WATCH_LINK + id + params) == id
  {
    var src := WATCH_LINK + id + params;
    assert src == WATCH_LINK + (id + params);
    NoShortLink(id + params);
    assert OccursAt(src, "watch?v=", 24);
    WatchHasV(src);
    WatchLinkFirstV(id + params);
    assert OccursAt(src, "v=", 30);
    var after := AfterFirst(src, "v=");
    assert |after| == |id + params| by {
      var i := |src| - |after| - 2;
      assert FirstAt(src, "v=", i);
      assert !(i < 30);
      assert !(i > 30);
    }
    assert after == id + params;
    BeforeFirstOf(id, params, '&');
  }

  /** "youtu.be/" cannot occur in a watch link whose tail has no "/". */
  lemma {:induction false} NoShortLink(tail: string)
    requires '/' !in tail
    ensures !Contains(WATCH_LINK + tail, "youtu.be/")
  {
    var src := WATCH_LINK + tail;
    forall k: nat | true ensures !OccursAt(src, "youtu.be/", k) {
      if k + 9 <= |src| && k + 8 >= 32 {
        assert src[k..k + 9][8] == tail[k + 8 - 32];
      } else if k + 9 <= |src| && k != 15 {
        assert src[k..k + 9][8] == WATCH_LINK[k + 8];
      } else if k + 9 <= |src| {
        assert src[k..k + 9][0] == 't';
      }
    }
  }
}
