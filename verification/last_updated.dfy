/** `last_updated_date` of theme/extensions/utils.py: the date a page
    shows as "last updated", taken from metadata already set, or from a
    `.. Last updated on: <date>` comment in the page source. What happens
    when neither gives a date (the git history, then the file time) is
    outside the model and appears as the outcome `FromHistory`. */
module LastUpdated {
  import opened Wrappers
  import opened Strings

  /** The words after the comment marker, compared without case. */
  const MARKER: string := "last updated on:"

  // ---------------------------------------------------------------------
  // str.splitlines()

  /** The line boundaries of Python's `str.splitlines`. */
  predicate IsLineBreak(c: char) {
    || c == '\n' || c == '\r' || c == '\U{0b}' || c == '\U{0c}'
    || c == '\U{1c}' || c == '\U{1d}' || c == '\U{1e}' || c == '\U{85}'
    || c == '\U{2028}' || c == '\U{2029}'
  }

  predicate NoBreak(s: string) {
    forall k :: 0 <= k < |s| ==> !IsLineBreak(s[k])
  }

  /** The text up to the first line boundary. */
  function LineHead(s: string): (r: string)
    ensures NoBreak(r)
    ensures StartsWith(s, r)
    ensures |r| < |s| ==> IsLineBreak(s[|r|])
  {
    if s == [] || IsLineBreak(s[0]) then [] else [s[0]] + LineHead(s[1..])
  }

  /** A line free of boundaries, then a boundary or nothing: the line is
      the head. */
  lemma {:induction false} LineHeadOf(a: string, b: string)
    requires NoBreak(a)
    requires b == [] || IsLineBreak(b[0])
    ensures LineHead(a + b) == a
  {
    var r := LineHead(a + b);
    assert forall k :: 0 <= k < |a| ==> (a + b)[k] == a[k];
    assert r == (a + b)[..|a|];
  }

  /** `s.splitlines()`: "\r\n" counts as one boundary, and a final
      boundary does not start another line. */
  function SplitLines(s: string): (lines: seq<string>)
    ensures forall i :: 0 <= i < |lines| ==> NoBreak(lines[i])
    ensures lines == [] <==> s == []
    decreases |s|
  {
    if s == [] then []
    else
      var line := LineHead(s);
      if |line| == |s| then [line]
      else
        var skip := if s[|line|] == '\r' && |line| + 1 < |s| && s[|line| + 1] == '\n' then 2 else 1;
        [line] + SplitLines(s[|line| + skip..])
  }

  /** Lines written out, each ended by "\n". */
  function JoinLines(lines: seq<string>): string {
    if lines == [] then [] else lines[0] + "\n" + JoinLines(lines[1..])
  }

  /** Splitting text written line by line gives the lines back. */
  lemma {:induction false} SplitJoinLines(lines: seq<string>)
    requires forall i :: 0 <= i < |lines| ==> NoBreak(lines[i])
    ensures SplitLines(JoinLines(lines)) == lines
    decreases |lines|
  {
    if lines != [] {
      var s := JoinLines(lines);
      var rest := JoinLines(lines[1..]);
      assert s == lines[0] + ("\n" + rest);
      LineHeadOf(lines[0], "\n" + rest);
      assert s[|lines[0]|] == '\n';
      assert s[|lines[0]| + 1..] == rest;
      SplitJoinLines(lines[1..]);
    }
  }

  // ---------------------------------------------------------------------
  // LAST_UPDATED_RE on one stripped line

  /** `LAST_UPDATED_RE.match(line.strip())`: the date of a
      `.. Last updated on: <date>` comment line. */
  function CommentDate(line: string): (r: Option<string>) {
    MatchComment(PyStrip(line))
  }

  /** The pattern on a stripped line: "..", at least one blank, the marker
      in any case, optional blanks and a non-empty rest without a newline;
      the date is that rest, stripped. */
  function MatchComment(l: string): (r: Option<string>) {
    if !StartsWith(l, "..") then None
    else
      var afterDots := l[2..];
      var body := TrimStart(afterDots, IsPySpace);
      if |body| == |afterDots| || |body| < |MARKER| || LowerString(body[..|MARKER|]) != MARKER then None
      else
        var g := TrimStart(body[|MARKER|..], IsPySpace);
        if g == [] || '\n' in g then None
        else Some(PyStrip(g))
  }

  /** A date found is a stripped, non-empty single line, and the stripped
      line is a comment of the documented shape around it. */
  lemma {:induction false} CommentDateShape(line: string)
    ensures var r := CommentDate(line);
      r.Some? ==> r.value != [] && Stripped(r.value) && '\n' !in r.value
                  && DateComment(PyStrip(line), r.value)
  {
    MatchCommentShape(PyStrip(line));
  }

  lemma {:induction false} MatchCommentShape(l: string)
    requires Stripped(l)
    ensures var r := MatchComment(l);
      r.Some? ==> r.value != [] && Stripped(r.value) && '\n' !in r.value && DateComment(l, r.value)
  {
    var r := MatchComment(l);
    if r.Some? {
      var afterDots := l[2..];
      var body := TrimStart(afterDots, IsPySpace);
      var g := TrimStart(body[|MARKER|..], IsPySpace);
      assert r == Some(PyStrip(g)) && g != [] && '\n' !in g;
      FoundShape(l, afterDots, body, g);
    }
  }

  /** The pieces `MatchComment` cuts a matching line into. */
  lemma {:induction false} FoundShape(l: string, afterDots: string, body: string, g: string)
    requires Stripped(l) && StartsWith(l, "..") && afterDots == l[2..]
    requires body == TrimStart(afterDots, IsPySpace) && |body| < |afterDots|
    requires |body| >= |MARKER| && LowerString(body[..|MARKER|]) == MARKER
    requires g == TrimStart(body[|MARKER|..], IsPySpace) && g != []
    ensures PyStrip(g) == g && Stripped(g) && DateComment(l, g)
  {
    TrimStartAfterBlanks(afterDots);
    TrimStartAfterBlanks(body[|MARKER|..]);
    DateCommentWitness(l, afterDots, body, g);
    TrimOfTrimmed(g, IsPySpace);
  }

  /** `l` is "..", the blanks `gap` (at least one), the marker in any case,
      the blanks `sep`, then `date`. */
  predicate CommentShape(l: string, gap: string, marker: string, sep: string, date: string) {
    && l == ".." + (gap + (marker + (sep + date)))
    && gap != [] && AllBlank(gap) && AllBlank(sep)
    && LowerString(marker) == MARKER
  }

  ghost predicate DateComment(l: string, date: string) {
    exists gap, marker, sep :: CommentShape(l, gap, marker, sep, date)
  }

  /** `r` is what is left of `s` after its leading blanks. */
  predicate AfterBlanks(s: string, r: string) {
    && |r| <= |s| && r == s[|s| - |r|..]
    && AllBlank(s[..|s| - |r|])
    && (r != [] ==> !IsPySpace(r[0]))
  }

  lemma {:induction false} TrimStartAfterBlanks(s: string)
    ensures AfterBlanks(s, TrimStart(s, IsPySpace))
  {
    var r := TrimStart(s, IsPySpace);
    assert forall k :: 0 <= k < |s| - |r| ==> s[..|s| - |r|][k] == s[k];
  }

  lemma {:induction false} DateCommentWitness(l: string, afterDots: string, body: string, g: string)
    requires Stripped(l) && StartsWith(l, "..") && afterDots == l[2..]
    requires AfterBlanks(afterDots, body) && |body| < |afterDots|
    requires |body| >= |MARKER| && LowerString(body[..|MARKER|]) == MARKER
    requires AfterBlanks(body[|MARKER|..], g) && g != []
    ensures Stripped(g) && DateComment(l, g)
  {
    var gap := afterDots[..|afterDots| - |body|];
    var marker := body[..|MARKER|];
    var tail := body[|MARKER|..];
    var sep := tail[..|tail| - |g|];
    Cut(l, 2);
    Cut(afterDots, |afterDots| - |body|);
    Cut(body, |MARKER|);
    Cut(tail, |tail| - |g|);
    ShapeFromPieces(l, afterDots, body, tail, gap, marker, sep, g);
  }

  lemma {:induction false} ShapeFromPieces(l: string, afterDots: string, body: string, tail: string,
                        gap: string, marker: string, sep: string, g: string)
    requires l == ".." + afterDots && afterDots == gap + body
    requires body == marker + tail && tail == sep + g
    requires gap != [] && AllBlank(gap) && AllBlank(sep) && LowerString(marker) == MARKER
    requires Stripped(l) && g != [] && !IsPySpace(g[0])
    ensures Stripped(g) && DateComment(l, g)
  {
    Assemble(l, "..", afterDots, gap, body, marker, tail, sep, g);
    assert CommentShape(l, gap, marker, sep, g);
    assert l[|l| - 1] == g[|g| - 1];
  }

  lemma {:induction false} Cut(s: string, n: nat)
    requires n <= |s|
    ensures s == s[..n] + s[n..]
  {
  }

  lemma {:induction false} Assemble(l: string, dots: string, afterDots: string, gap: string, body: string,
                 marker: string, tail: string, sep: string, g: string)
    requires l == dots + afterDots && afterDots == gap + body
    requires body == marker + tail && tail == sep + g
    ensures l == dots + (gap + (marker + (sep + g)))
  {
  }

  // ---------------------------------------------------------------------
  // The first comment of the page

  /** `r` is nothing when no line has a date, and otherwise the date of a
      line with no dated line before it. */
  predicate IsFirstMatch(lines: seq<string>, date: string -> Option<string>, r: Option<string>) {
    && (r.None? <==> forall i :: 0 <= i < |lines| ==> date(lines[i]).None?)
    && (r.Some? ==> exists i :: 0 <= i < |lines| && date(lines[i]) == r
                                && forall j :: 0 <= j < i ==> date(lines[j]).None?)
  }

  /** `date` of the first line it finds a date in, if any: the loop over
      the lines stops at the first match. */
  function FirstMatch(lines: seq<string>, date: string -> Option<string>): (r: Option<string>)
    ensures IsFirstMatch(lines, date, r)
    ensures forall i :: 0 <= i < |lines| && date(lines[i]).Some?
                        && (forall j :: 0 <= j < i ==> date(lines[j]).None?) ==>
                        r == date(lines[i])
  {
    if lines == [] then None
    else if date(lines[0]).Some? then date(lines[0])
    else
      assert forall i :: 1 <= i < |lines| ==> lines[1..][i - 1] == lines[i];
      FirstMatch(lines[1..], date)
  }

  datatype Outcome =
    | Unchanged          // the metadata already has a date
    | Stored(date: string) // the date of the source comment becomes the metadata
    | FromHistory        // no date yet: the git history or the file time decides

  /** `on` after the loop: the first comment date of the page, where
      `source` is the list of source strings the build passes (the first
      one is the page). */
  function SourceDate(source: seq<string>): (on: Option<string>)
    ensures source == [] ==> on == None
    // Nothing when no line of the page is a comment; otherwise the date of
    // a comment line that no comment line precedes.
    ensures source != [] ==> IsFirstMatch(SplitLines(source[0]), CommentDate, on)
  {
    if source == [] then None else FirstMatch(SplitLines(source[0]), CommentDate)
  }

  /** A date the page source gives is never empty, so `if on:` holds
      whenever the loop found a comment. */
  lemma {:induction false} SourceDateShape(source: seq<string>)
    ensures var on := SourceDate(source);
      on.Some? ==> on.value != [] && Stripped(on.value) && '\n' !in on.value
  {
    if source != [] {
      var lines := SplitLines(source[0]);
      var on := FirstMatch(lines, CommentDate);
      if on.Some? {
        var i :| 0 <= i < |lines| && CommentDate(lines[i]) == on;
        CommentDateShape(lines[i]);
      }
    }
  }

  /** `existing` is the page's `last_updated` metadata. A non-empty one is
      kept; otherwise a non-empty date from the source becomes it. */
  function LastUpdatedDate(existing: Option<string>, source: seq<string>): (o: Outcome)
    ensures o == Unchanged <==> existing.Some? && existing.value != []
    ensures o.Stored? ==> o.date != [] && SourceDate(source) == Some(o.date)
    ensures o == FromHistory <==>
      !(existing.Some? && existing.value != [])
      && (SourceDate(source) == None || SourceDate(source) == Some(""))
  {
    if existing.Some? && existing.value != [] then Unchanged
    else
      match SourceDate(source)
      case Some(date) => if date != [] then Stored(date) else FromHistory
      case None => FromHistory
  }

  // ---------------------------------------------------------------------
  // The comment as authors write it

  /** `CommentDate` step by step, on named pieces. */
  lemma {:induction false} CommentDateSteps(l: string, afterDots: string, body: string, g: string)
    requires StartsWith(l, "..") && l[2..] == afterDots
    requires TrimStart(afterDots, IsPySpace) == body && |body| < |afterDots|
    requires |body| >= |MARKER| && LowerString(body[..|MARKER|]) == MARKER
    requires TrimStart(body[|MARKER|..], IsPySpace) == g
    requires g != [] && '\n' !in g && Stripped(g)
    ensures MatchComment(l) == Some(g)
  {
    TrimOfTrimmed(g, IsPySpace);
  }

  lemma {:induction false} TrimStartNoop(s: string)
    requires s != [] && !IsPySpace(s[0])
    ensures TrimStart(s, IsPySpace) == s
  {
  }

  /** The pieces of a comment of the documented shape. */
  lemma {:induction false} CommentPieces(l: string, gap: string, marker: string, sep: string, date: string)
    requires CommentShape(l, gap, marker, sep, date)
    requires date != [] && Stripped(date)
    ensures Stripped(l) && StartsWith(l, "..") && l[2..] == gap + (marker + (sep + date))
    ensures (marker + (sep + date))[..|MARKER|] == marker
    ensures (marker + (sep + date))[|MARKER|..] == sep + date
  {
    var rest := gap + (marker + (sep + date));
    assert rest[|rest| - 1] == date[|date| - 1];
    DotsStripped(l, rest, date);
    MarkerCut(marker, sep + date);
  }

  lemma {:induction false} DotsStripped(l: string, rest: string, date: string)
    requires l == ".." + rest && rest != [] && date != [] && Stripped(date)
    requires rest[|rest| - 1] == date[|date| - 1]
    ensures Stripped(l) && StartsWith(l, "..") && l[2..] == rest
  {
    assert l[0] == '.' && l[|l| - 1] == rest[|rest| - 1];
  }

  lemma {:induction false} MarkerCut(marker: string, rest: string)
    requires LowerString(marker) == MARKER
    ensures (marker + rest)[..|MARKER|] == marker
    ensures (marker + rest)[|MARKER|..] == rest
  {
    assert |marker| == |MARKER|;
  }

  /** The pattern gives back the date of a stripped comment of the
      documented shape. */
  lemma {:induction false} MatchRoundTrip(l: string, gap: string, marker: string, sep: string, date: string)
    requires CommentShape(l, gap, marker, sep, date)
    requires date != [] && Stripped(date) && '\n' !in date
    ensures Stripped(l) && MatchComment(l) == Some(date)
  {
    var tail := sep + date;
    var body := marker + tail;
    CommentPieces(l, gap, marker, sep, date);
    assert !IsPySpace(body[0]) by {
      assert LowerString(marker)[0] == 'l';
    }
    TrimStartPadded(gap, body, IsPySpace);
    TrimStartNoop(body);
    TrimStartPadded(sep, date, IsPySpace);
    TrimStartNoop(date);
    CommentDateSteps(l, gap + body, body, date);
  }

  /** Any comment of the documented shape, indented or not, in any case,
      yields exactly its date. */
  lemma {:induction false} CommentDateRoundTrip(indent: string, gap: string, marker: string,
                             sep: string, date: string, trail: string)
    requires AllBlank(indent) && AllBlank(trail)
    requires CommentShape(".." + (gap + (marker + (sep + date))), gap, marker, sep, date)
    requires date != [] && Stripped(date) && '\n' !in date
    ensures CommentDate(indent + (".." + (gap + (marker + (sep + date)))) + trail) == Some(date)
  {
    var l := ".." + (gap + (marker + (sep + date)));
    MatchRoundTrip(l, gap, marker, sep, date);
    TrimPadded(indent, l, trail, IsPySpace);
  }

  /** A page whose source carries the comment gets its date, wherever the
      comment stands among the lines, as long as no earlier line is one. */
  lemma {:induction false} CommentBecomesMetadata(before: seq<string>, comment: string, after: seq<string>, date: string)
    requires forall i :: 0 <= i < |before| ==> NoBreak(before[i]) && CommentDate(before[i]).None?
    requires NoBreak(comment) && CommentDate(comment) == Some(date)
    requires forall i :: 0 <= i < |after| ==> NoBreak(after[i])
    ensures LastUpdatedDate(None, [JoinLines(before + [comment] + after)]) == Stored(date)
  {
    var source := [JoinLines(before + [comment] + after)];
    assert SourceDate(source) == Some(date) by {
      CommentFound(before, comment, after, date);
    }
    assert date != [] by {
      DateNonEmpty(comment);
    }
    StoredWhenFound(source, date);
  }

  /** A non-empty date found in the source of a page without one is stored. */
  lemma {:induction false} StoredWhenFound(source: seq<string>, date: string)
    requires SourceDate(source) == Some(date) && date != []
    ensures LastUpdatedDate(None, source) == Stored(date)
  {
  }

  lemma {:induction false} DateNonEmpty(line: string)
    ensures CommentDate(line).Some? ==> CommentDate(line).value != []
  {
    CommentDateShape(line);
  }

  /** The loop over the page's lines stops at the comment. */
  lemma {:induction false} CommentFound(before: seq<string>, comment: string, after: seq<string>, date: string)
    requires forall i :: 0 <= i < |before| ==> NoBreak(before[i]) && CommentDate(before[i]).None?
    requires NoBreak(comment) && CommentDate(comment) == Some(date)
    requires forall i :: 0 <= i < |after| ==> NoBreak(after[i])
    ensures SourceDate([JoinLines(before + [comment] + after)]) == Some(date)
  {
    var lines := before + [comment] + after;
    forall i | 0 <= i < |lines| ensures NoBreak(lines[i]) {
      if i < |before| {
        assert lines[i] == before[i];
      } else if i > |before| {
        assert lines[i] == after[i - |before| - 1];
      }
    }
    PageLines(lines);
    FirstMatchAfter(before, comment, after, CommentDate);
  }

  /** The page text written line by line is read back as those lines. */
  lemma {:induction false} PageLines(lines: seq<string>)
    requires forall i :: 0 <= i < |lines| ==> NoBreak(lines[i])
    ensures SourceDate([JoinLines(lines)]) == FirstMatch(lines, CommentDate)
  {
    SplitJoinLines(lines);
  }

  /** The line after a run of lines without a date gives the date. */
  lemma {:induction false} FirstMatchAfter(before: seq<string>, line: string, after: seq<string>,
                        date: string -> Option<string>)
    requires forall i :: 0 <= i < |before| ==> date(before[i]).None?
    requires date(line).Some?
    ensures FirstMatch(before + [line] + after, date) == date(line)
  {
    var lines := before + [line] + after;
    assert lines[|before|] == line;
    assert forall j :: 0 <= j < |before| ==> lines[j] == before[j];
    FirstMatchAt(lines, date, |before|);
  }

  lemma {:induction false} FirstMatchAt(lines: seq<string>, date: string -> Option<string>, i: nat)
    requires i < |lines| && date(lines[i]).Some?
    requires forall j :: 0 <= j < i ==> date(lines[j]).None?
    ensures FirstMatch(lines, date) == date(lines[i])
  {
  }
}
