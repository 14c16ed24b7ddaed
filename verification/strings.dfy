/** String operations of Python and JavaScript, written out on `seq<char>`.
    Both languages trim "whitespace", but they disagree on which
    characters that is, so each gets its own character class. */
module Strings {
  import opened Wrappers

  /** The characters Python's `str.isspace` accepts; `str.strip()`,
      `str.split()` and the regular-expression class `\s` use this set. */
  predicate IsPySpace(c: char) {
    || ('\t' <= c <= '\r')
    || ('\U{1c}' <= c <= '\U{1f}')
    || c == ' ' || c == '\U{85}' || c == '\U{a0}' || c == '\U{1680}'
    || ('\U{2000}' <= c <= '\U{200a}')
    || c == '\U{2028}' || c == '\U{2029}' || c == '\U{202f}'
    || c == '\U{205f}' || c == '\U{3000}'
  }

  /** The characters ECMAScript counts as WhiteSpace or LineTerminator;
      `String.prototype.trim` and the regular-expression class `\s` use it. */
  predicate IsJsSpace(c: char) {
    || ('\t' <= c <= '\r')
    || c == ' ' || c == '\U{a0}' || c == '\U{1680}'
    || ('\U{2000}' <= c <= '\U{200a}')
    || c == '\U{2028}' || c == '\U{2029}' || c == '\U{202f}'
    || c == '\U{205f}' || c == '\U{3000}' || c == '\U{feff}'
  }

  predicate IsAsciiLetter(c: char) {
    ('a' <= c <= 'z') || ('A' <= c <= 'Z')
  }

  predicate IsAsciiDigit(c: char) {
    '0' <= c <= '9'
  }

  // ---------------------------------------------------------------------
  // Trimming

  /** Drops the leading characters that satisfy `ws`. */
  function TrimStart(s: string, ws: char -> bool): (r: string)
    ensures |r| <= |s| && r == s[|s| - |r|..]
    ensures forall i :: 0 <= i < |s| - |r| ==> ws(s[i])
    ensures r != [] ==> !ws(r[0])
  {
    if s != [] && ws(s[0]) then TrimStart(s[1..], ws) else s
  }

  /** Drops the trailing characters that satisfy `ws` (Python's `rstrip(chars)`). */
  function TrimEnd(s: string, ws: char -> bool): (r: string)
    ensures |r| <= |s| && r == s[..|r|]
    ensures forall i :: |r| <= i < |s| ==> ws(s[i])
    ensures r != [] ==> !ws(r[|r| - 1])
  {
    if s != [] && ws(s[|s| - 1]) then TrimEnd(s[..|s| - 1], ws) else s
  }

  /** `r` is `s` with the maximal runs of `ws` removed at both ends. */
  ghost predicate IsTrimOf(s: string, r: string, ws: char -> bool) {
    exists i :: TrimmedAt(s, r, ws, i)
  }

  ghost predicate TrimmedAt(s: string, r: string, ws: char -> bool, i: nat) {
    && i + |r| <= |s|
    && r == s[i..i + |r|]
    && (forall k :: 0 <= k < i ==> ws(s[k]))
    && (forall k :: i + |r| <= k < |s| ==> ws(s[k]))
    && (r != [] ==> !ws(r[0]) && !ws(r[|r| - 1]))
  }

  function Trim(s: string, ws: char -> bool): (r: string)
    ensures IsTrimOf(s, r, ws)
    ensures r == [] <==> forall k :: 0 <= k < |s| ==> ws(s[k])
  {
    var a := TrimStart(s, ws);
    var r := TrimEnd(a, ws);
    assert TrimmedAt(s, r, ws, |s| - |a|);
    AllTrimmedWhenEmpty(s, a, r, ws);
    r
  }

  lemma {:induction false} AllTrimmedWhenEmpty(s: string, a: string, r: string, ws: char -> bool)
    requires |a| <= |s| && a == s[|s| - |a|..]
    requires forall i :: 0 <= i < |s| - |a| ==> ws(s[i])
    requires forall i :: |r| <= i < |a| ==> ws(a[i])
    ensures r == [] ==> forall k :: 0 <= k < |s| ==> ws(s[k])
  {
    if r == [] {
      forall k | 0 <= k < |s| ensures ws(s[k]) {
        if k >= |s| - |a| {
          assert s[k] == a[k - (|s| - |a|)];
        }
      }
    }
  }

  /** Python `str.strip()` with no argument. */
  function PyStrip(s: string): (r: string)
    ensures IsTrimOf(s, r, IsPySpace)
    ensures r == [] <==> forall k :: 0 <= k < |s| ==> IsPySpace(s[k])
  {
    Trim(s, IsPySpace)
  }

  /** `x` has no Python blank at either end. */
  predicate Stripped(x: string) {
    x != [] ==> !IsPySpace(x[0]) && !IsPySpace(x[|x| - 1])
  }

  predicate AllBlank(s: string) {
    forall k :: 0 <= k < |s| ==> IsPySpace(s[k])
  }

  /** JavaScript `String.prototype.trim()`. */
  function JsTrim(s: string): (r: string)
    ensures IsTrimOf(s, r, IsJsSpace)
    ensures r == [] <==> forall k :: 0 <= k < |s| ==> IsJsSpace(s[k])
  {
    Trim(s, IsJsSpace)
  }

  predicate IsGt(c: char) {
    c == '>'
  }

  /** Python `str.rstrip(">")`: every trailing `>` goes, nothing else. */
  function RStripGt(s: string): (r: string)
    ensures |r| <= |s| && r == s[..|r|]
    ensures forall i :: |r| <= i < |s| ==> s[i] == '>'
    ensures r != [] ==> r[|r| - 1] != '>'
  {
    TrimEnd(s, IsGt)
  }

  /** Trimming a string that has no trimmable character at either end
      leaves it as it is. */
  lemma {:induction false} TrimOfTrimmed(s: string, ws: char -> bool)
    requires s != [] ==> !ws(s[0]) && !ws(s[|s| - 1])
    ensures Trim(s, ws) == s
  {
    assert TrimStart(s, ws) == s;
    assert TrimEnd(s, ws) == s;
  }

  /** Trimming twice is trimming once. */
  lemma {:induction false} TrimIdempotent(s: string, ws: char -> bool)
    ensures Trim(Trim(s, ws), ws) == Trim(s, ws)
  {
    TrimOfTrimmed(Trim(s, ws), ws);
  }

  /** Leading characters that are all trimmable disappear. */
  lemma {:induction false} TrimStartPadded(pre: string, x: string, ws: char -> bool)
    requires forall k :: 0 <= k < |pre| ==> ws(pre[k])
    ensures TrimStart(pre + x, ws) == TrimStart(x, ws)
    decreases |pre|
  {
    if pre == [] {
      assert pre + x == x;
    } else {
      assert (pre + x)[1..] == pre[1..] + x;
      TrimStartPadded(pre[1..], x, ws);
    }
  }

  /** Trailing characters that are all trimmable disappear. */
  lemma {:induction false} TrimEndPadded(x: string, post: string, ws: char -> bool)
    requires forall k :: 0 <= k < |post| ==> ws(post[k])
    ensures TrimEnd(x + post, ws) == TrimEnd(x, ws)
    decreases |post|
  {
    if post == [] {
      assert x + post == x;
    } else {
      var post' := post[..|post| - 1];
      assert (x + post)[..|x + post| - 1] == x + post';
      TrimEndPadded(x, post', ws);
    }
  }

  /** A string without trimmable ends, padded with trimmable characters on
      both sides, trims back to itself. */
  lemma {:induction false} TrimPadded(pre: string, x: string, post: string, ws: char -> bool)
    requires forall k :: 0 <= k < |pre| ==> ws(pre[k])
    requires forall k :: 0 <= k < |post| ==> ws(post[k])
    requires x != [] ==> !ws(x[0]) && !ws(x[|x| - 1])
    ensures Trim(pre + x + post, ws) == x
  {
    if x == [] {
      assert pre + x + post == pre + post;
      TrimBlank(pre, post, ws);
    } else {
      TrimText(pre, x, post, ws);
    }
  }

  lemma {:induction false} TrimBlank(pre: string, post: string, ws: char -> bool)
    requires forall k :: 0 <= k < |pre| ==> ws(pre[k])
    requires forall k :: 0 <= k < |post| ==> ws(post[k])
    ensures Trim(pre + post, ws) == []
  {
    var s := pre + post;
    forall k | 0 <= k < |s| ensures ws(s[k]) {
      if k < |pre| {
        assert s[k] == pre[k];
      } else {
        assert s[k] == post[k - |pre|];
      }
    }
  }

  lemma {:induction false} TrimText(pre: string, x: string, post: string, ws: char -> bool)
    requires forall k :: 0 <= k < |pre| ==> ws(pre[k])
    requires forall k :: 0 <= k < |post| ==> ws(post[k])
    requires x != [] && !ws(x[0]) && !ws(x[|x| - 1])
    ensures Trim(pre + x + post, ws) == x
  {
    assert pre + x + post == pre + (x + post);
    TrimStartPadded(pre, x + post, ws);
    assert (x + post)[0] == x[0];
    assert TrimStart(x + post, ws) == x + post;
    TrimEndPadded(x, post, ws);
    assert TrimEnd(x, ws) == x;
  }

  // ---------------------------------------------------------------------
  // Searching

  predicate OccursAt(s: string, sub: string, i: nat) {
    i + |sub| <= |s| && s[i..i + |sub|] == sub
  }

  /** The first index at or after `from` where `sub` occurs. */
  function FindFrom(s: string, sub: string, from: nat): (r: Option<nat>)
    requires from <= |s|
    ensures r.Some? ==> from <= r.value && OccursAt(s, sub, r.value)
    ensures r.Some? ==> forall k :: from <= k < r.value ==> !OccursAt(s, sub, k)
    ensures r.None? ==> forall k :: from <= k <= |s| ==> !OccursAt(s, sub, k)
    decreases |s| - from
  {
    if OccursAt(s, sub, from) then Some(from)
    else if from == |s| then None
    else FindFrom(s, sub, from + 1)
  }

  /** The first index where `sub` occurs (Python `str.find`, without the -1). */
  function Find(s: string, sub: string): (r: Option<nat>)
    ensures r.Some? ==> OccursAt(s, sub, r.value)
    ensures r.Some? ==> forall k :: 0 <= k < r.value ==> !OccursAt(s, sub, k)
    ensures r.None? ==> forall k :: 0 <= k <= |s| ==> !OccursAt(s, sub, k)
  {
    FindFrom(s, sub, 0)
  }

  /** Python's `sub in s`. */
  predicate Contains(s: string, sub: string) {
    Find(s, sub).Some?
  }

  lemma {:induction false} ContainsAt(s: string, sub: string, i: nat)
    requires OccursAt(s, sub, i)
    ensures Contains(s, sub)
  {
  }

  lemma {:induction false} NotContainsAt(s: string, sub: string, i: nat)
    requires !Contains(s, sub)
    ensures !OccursAt(s, sub, i)
  {
    if i > |s| {
      assert !OccursAt(s, sub, i);
    }
  }

  predicate StartsWith(s: string, prefix: string) {
    |prefix| <= |s| && s[..|prefix|] == prefix
  }

  predicate EndsWith(s: string, suffix: string) {
    |suffix| <= |s| && s[|s| - |suffix|..] == suffix
  }

  /** The last index where character `c` occurs. */
  function LastIndexOf(s: string, c: char): (r: Option<nat>)
    ensures r.Some? ==> r.value < |s| && s[r.value] == c
    ensures r.Some? ==> forall k :: r.value < k < |s| ==> s[k] != c
    ensures r.None? ==> c !in s
  {
    if s == [] then None
    else if s[|s| - 1] == c then Some(|s| - 1)
    else LastIndexOf(s[..|s| - 1], c)
  }

  // ---------------------------------------------------------------------
  // Splitting

  /** Python's `s.split(sep, 1)`: `None` when the result has one piece,
      otherwise the text before and after the first `sep`. */
  function SplitOnce(s: string, sep: string): (r: Option<(string, string)>)
    requires sep != []
    ensures r.None? <==> !Contains(s, sep)
    ensures r.Some? ==> s == r.value.0 + sep + r.value.1
    ensures r.Some? ==> !Contains(r.value.0 + sep[..|sep| - 1], sep)
  {
    match Find(s, sep)
    case None => None
    case Some(i) =>
      var before, after := s[..i], s[i + |sep|..];
      assert s == before + sep + after by {
        assert s[i..i + |sep|] == sep;
      }
      FirstOccurrenceHead(s, sep, i);
      Some((before, after))
  }

  /** Nothing before the first occurrence of `sep`, including the part of
      it that overlaps `sep`'s own first characters, contains `sep`. */
  lemma {:induction false} FirstOccurrenceHead(s: string, sep: string, i: nat)
    requires sep != [] && OccursAt(s, sep, i)
    requires forall k :: 0 <= k < i ==> !OccursAt(s, sep, k)
    ensures !Contains(s[..i] + sep[..|sep| - 1], sep)
  {
    var head := s[..i] + sep[..|sep| - 1];
    assert head == s[..i + |sep| - 1];
    forall k: nat | k + |sep| <= |head| ensures !OccursAt(head, sep, k) {
      assert k < i && !OccursAt(s, sep, k);
      assert head[k..k + |sep|] == s[k..k + |sep|];
    }
    assert Find(head, sep).None?;
  }

  /** The text before the first `c`, or all of `s` (Python `s.split(c, 1)[0]`). */
  function BeforeFirst(s: string, c: char): (r: string)
    ensures c !in r
    ensures StartsWith(s, r)
    ensures |r| < |s| ==> s[|r|] == c
  {
    if s == [] || s[0] == c then [] else [s[0]] + BeforeFirst(s[1..], c)
  }

  /** Text free of `c`, followed by `c` or by nothing, is what comes before
      the first `c`. */
  lemma {:induction false} BeforeFirstOf(a: string, b: string, c: char)
    requires c !in a
    requires b == [] || b[0] == c
    ensures BeforeFirst(a + b, c) == a
  {
    var r := BeforeFirst(a + b, c);
    assert forall k :: 0 <= k < |a| ==> (a + b)[k] == a[k];
    assert r == (a + b)[..|a|];
  }

  /** The text after the last `c`, or all of `s` (Python `s.rsplit(c, 1)[-1]`). */
  function AfterLast(s: string, c: char): (r: string)
    ensures c !in r
    ensures EndsWith(s, r)
    ensures |r| < |s| ==> s[|s| - |r| - 1] == c
  {
    match LastIndexOf(s, c)
    case None => s
    case Some(i) => s[i + 1..]
  }

  /** Python's `s.split(c)` for a one-character separator. */
  function Split(s: string, c: char): (r: seq<string>)
    ensures |r| >= 1
    ensures forall k :: 0 <= k < |r| ==> c !in r[k]
    ensures |r| == 1 <==> c !in s
  {
    var head := BeforeFirst(s, c);
    if |head| == |s| then
      assert head == s;
      [s]
    else
      [head] + Split(s[|head| + 1..], c)
  }

  /** Python's `sep.join(parts)`. */
  function Join(parts: seq<string>, sep: string): string {
    if parts == [] then []
    else if |parts| == 1 then parts[0]
    else parts[0] + sep + Join(parts[1..], sep)
  }

  /** Concatenation of all pieces (Python `"".join(parts)`). */
  function Concat(parts: seq<string>): string {
    if parts == [] then [] else parts[0] + Concat(parts[1..])
  }

  /** Joining the pieces of a split with the separator gives the string back. */
  lemma {:induction false} JoinSplit(s: string, c: char)
    ensures Join(Split(s, c), [c]) == s
    decreases |s|
  {
    var head := BeforeFirst(s, c);
    if |head| < |s| {
      var tail := s[|head| + 1..];
      JoinSplit(tail, c);
      SplitAtFirst(s, c);
      JoinCons(head, Split(tail, c), [c]);
    }
  }

  /** When `c` occurs, `s` is the text before its first occurrence, `c`,
      and the rest. */
  lemma {:induction false} SplitAtFirst(s: string, c: char)
    requires |BeforeFirst(s, c)| < |s|
    ensures s == BeforeFirst(s, c) + [c] + s[|BeforeFirst(s, c)| + 1..]
    ensures Split(s, c) == [BeforeFirst(s, c)] + Split(s[|BeforeFirst(s, c)| + 1..], c)
  {
    var head := BeforeFirst(s, c);
    assert s[..|head|] == head && s[|head|] == c;
    assert s == s[..|head|] + [s[|head|]] + s[|head| + 1..];
  }

  lemma {:induction false} JoinCons(head: string, rest: seq<string>, sep: string)
    requires rest != []
    ensures Join([head] + rest, sep) == head + sep + Join(rest, sep)
  {
    assert ([head] + rest)[1..] == rest;
  }

  /** Joining two runs of pieces puts one separator between them. */
  lemma {:induction false} JoinAppend(a: seq<string>, b: seq<string>, sep: string)
    requires a != [] && b != []
    ensures Join(a + b, sep) == Join(a, sep) + sep + Join(b, sep)
    decreases |a|
  {
    if |a| == 1 {
      JoinCons(a[0], b, sep);
    } else {
      assert a + b == [a[0]] + (a[1..] + b);
      JoinCons(a[0], a[1..] + b, sep);
      JoinAppend(a[1..], b, sep);
      JoinCons(a[0], a[1..], sep);
      assert a == [a[0]] + a[1..];
    }
  }

  /** A `c`-free tail of `s` that starts at the beginning or right after a
      `c` is the text after the last `c`. */
  lemma {:induction false} AfterLastUnique(s: string, c: char, r: string)
    requires c !in r && EndsWith(s, r)
    requires |r| == |s| || s[|s| - |r| - 1] == c
    ensures AfterLast(s, c) == r
  {
    var q := AfterLast(s, c);
    if |q| < |r| {
      assert false;
    } else if |r| < |q| {
      assert false;
    }
    assert s[|s| - |q|..] == q && s[|s| - |r|..] == r;
  }

  /** Text ending in `c` in front of `b` does not change what follows the
      last `c`. */
  lemma {:induction false} AfterLastPrefixed(a: string, b: string, c: char)
    requires a == [] || a[|a| - 1] == c
    ensures AfterLast(a + b, c) == AfterLast(b, c)
  {
    var r := AfterLast(b, c);
    assert (a + b)[|a + b| - |r|..] == b[|b| - |r|..];
    if |r| < |b| {
      assert (a + b)[|a + b| - |r| - 1] == b[|b| - |r| - 1];
    } else if a != [] {
      assert (a + b)[|a + b| - |r| - 1] == a[|a| - 1];
    }
    AfterLastUnique(a + b, c, r);
  }

  /** Joined pieces end with the last piece, after the last separator. */
  lemma {:induction false} JoinLast(parts: seq<string>, c: char)
    requires parts != [] && c !in parts[|parts| - 1]
    ensures AfterLast(Join(parts, [c]), c) == parts[|parts| - 1]
    decreases |parts|
  {
    if |parts| == 1 {
      AfterLastUnique(parts[0], c, parts[0]);
    } else {
      JoinLast(parts[1..], c);
      assert Join(parts, [c]) == (parts[0] + [c]) + Join(parts[1..], [c]);
      AfterLastPrefixed(parts[0] + [c], Join(parts[1..], [c]), c);
    }
  }

  /** The last piece of a split is the text after the last separator. */
  lemma {:induction false} SplitLast(s: string, c: char)
    ensures Split(s, c)[|Split(s, c)| - 1] == AfterLast(s, c)
  {
    JoinSplit(s, c);
    JoinLast(Split(s, c), c);
  }

  /** Splitting pieces free of the separator, joined by it, gives them back. */
  lemma {:induction false} SplitJoin(parts: seq<string>, c: char)
    requires parts != []
    requires forall k :: 0 <= k < |parts| ==> c !in parts[k]
    ensures Split(Join(parts, [c]), c) == parts
    decreases |parts|
  {
    var s := Join(parts, [c]);
    if |parts| == 1 {
      assert s == parts[0];
      BeforeFirstOf(parts[0], [], c);
      assert parts[0] + [] == parts[0];
    } else {
      var rest := Join(parts[1..], [c]);
      assert s == parts[0] + ([c] + rest);
      BeforeFirstOf(parts[0], [c] + rest, c);
      SplitAtFirst(s, c);
      assert s[|parts[0]| + 1..] == rest;
      SplitJoin(parts[1..], c);
      assert parts == [parts[0]] + parts[1..];
    }
  }

  /** Number of occurrences of `c` (Python `s.count(c)`). */
  function Count(s: string, c: char): (n: nat)
    ensures n <= |s|
    ensures n == 0 <==> c !in s
  {
    if s == [] then 0 else (if s[0] == c then 1 else 0) + Count(s[1..], c)
  }

  lemma {:induction false} CountAppend(a: string, b: string, c: char)
    ensures Count(a + b, c) == Count(a, c) + Count(b, c)
  {
    if a != [] {
      assert (a + b)[1..] == a[1..] + b;
      CountAppend(a[1..], b, c);
    } else {
      assert a + b == b;
    }
  }

  /** `s` written out `n` times (Python `s * n`). */
  function Repeat(s: string, n: nat): (r: string)
    ensures |r| == n * |s|
  {
    if n == 0 then [] else s + Repeat(s, n - 1)
  }

  // ---------------------------------------------------------------------
  // Case mapping (ASCII letters only)

  function UpperAscii(c: char): (r: char)
    ensures 'a' <= c <= 'z' ==> 'A' <= r <= 'Z'
    ensures !('a' <= c <= 'z') ==> r == c
  {
    if 'a' <= c <= 'z' then (c as int - 32) as char else c
  }

  function LowerAscii(c: char): (r: char)
    ensures 'A' <= c <= 'Z' ==> 'a' <= r <= 'z'
    ensures !('A' <= c <= 'Z') ==> r == c
  {
    if 'A' <= c <= 'Z' then (c as int + 32) as char else c
  }

  function LowerString(s: string): (r: string)
    ensures |r| == |s|
    ensures forall i :: 0 <= i < |s| ==> r[i] == LowerAscii(s[i])
  {
    if s == [] then [] else [LowerAscii(s[0])] + LowerString(s[1..])
  }
}
