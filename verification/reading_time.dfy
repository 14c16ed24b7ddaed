/** The reading-time estimate of theme/base/static/theme.js (the
    `DOMContentLoaded` reducer over the content's paragraphs).

    The DOM part is abstract: each paragraph arrives with a flag saying
    whether it sits inside code, a figure, an admonition, navigation and
    so on, and with the text of its clone after the inline code, icons and
    copy buttons were removed. Which characters are Unicode letters or
    numbers (`[\p{L}\p{N}]`) is the parameter `isWordChar`. */
module ReadingTime {
  import opened Wrappers
  import opened Strings

  const WORDS_PER_MINUTE: nat := 225
  const MIN_PARAGRAPH_CHARS: nat := 20

  datatype Paragraph = Paragraph(excluded: bool, text: string)

  /** `text.replace(/\s+/g, ' ')`: every run of blanks becomes one space. */
  function CollapseSpaces(s: string): (r: string)
    ensures forall i :: 0 <= i < |r| && IsJsSpace(r[i]) ==> r[i] == ' '
    ensures forall i :: 0 <= i < |r| - 1 ==> !(r[i] == ' ' && r[i + 1] == ' ')
    ensures r != [] <==> s != []
    ensures r != [] ==> (r[0] == ' ' <==> IsJsSpace(s[0]))
    decreases |s|
  {
    if s == [] then []
    else if IsJsSpace(s[0]) then [' '] + CollapseSpaces(TrimStart(s, IsJsSpace))
    else [s[0]] + CollapseSpaces(s[1..])
  }

  /** The text is clean: only plain spaces, single ones, none at the ends. */
  predicate IsClean(t: string) {
    && (forall i :: 0 <= i < |t| && IsJsSpace(t[i]) ==> t[i] == ' ')
    && (forall i :: 0 <= i < |t| - 1 ==> !(t[i] == ' ' && t[i + 1] == ' '))
    && (t != [] ==> t[0] != ' ' && t[|t| - 1] != ' ')
  }

  /** The cleaned paragraph text: blanks collapsed, then trimmed. */
  function CleanText(s: string): (t: string)
    ensures IsClean(t)
    ensures t == [] <==> forall k :: 0 <= k < |s| ==> IsJsSpace(s[k])
  {
    var c := CollapseSpaces(s);
    var t := JsTrim(c);
    TrimKeepsClean(c, t);
    CleanWhenCollapsedEmpty(s, c);
    t
  }

  lemma {:induction false} TrimKeepsClean(c: string, t: string)
    requires forall i :: 0 <= i < |c| && IsJsSpace(c[i]) ==> c[i] == ' '
    requires forall i :: 0 <= i < |c| - 1 ==> !(c[i] == ' ' && c[i + 1] == ' ')
    requires IsTrimOf(c, t, IsJsSpace)
    ensures IsClean(t)
  {
    var i: nat :| TrimmedAt(c, t, IsJsSpace, i);
    assert forall k :: 0 <= k < |t| ==> t[k] == c[i + k];
  }

  lemma CleanWhenCollapsedEmpty(s: string, c: string)
    requires c == CollapseSpaces(s)
    ensures (forall k :: 0 <= k < |c| ==> IsJsSpace(c[k])) <==> (forall k :: 0 <= k < |s| ==> IsJsSpace(s[k]))
    decreases |s|
  {
    if s != [] {
      if IsJsSpace(s[0]) {
        var rest := TrimStart(s, IsJsSpace);
        CleanWhenCollapsedEmpty(rest, CollapseSpaces(rest));
        assert c == [' '] + CollapseSpaces(rest);
        assert forall k :: 0 < k < |c| ==> c[k] == CollapseSpaces(rest)[k - 1];
        assert forall k :: |s| - |rest| <= k < |s| ==> s[k] == rest[k - (|s| - |rest|)];
      } else {
        assert !IsJsSpace(c[0]);
      }
    }
  }

  /** Cleaning clean text changes nothing. */
  lemma {:induction false} CollapseClean(t: string)
    requires forall i :: 0 <= i < |t| && IsJsSpace(t[i]) ==> t[i] == ' '
    requires forall i :: 0 <= i < |t| - 1 ==> !(t[i] == ' ' && t[i + 1] == ' ')
    ensures CollapseSpaces(t) == t
    decreases |t|
  {
    if t != [] {
      if IsJsSpace(t[0]) {
        assert TrimStart(t, IsJsSpace) == t[1..] by {
          if |t| > 1 {
            assert !IsJsSpace(t[1]);
            assert TrimStart(t[1..], IsJsSpace) == t[1..];
          }
        }
      }
      CollapseClean(t[1..]);
    }
  }

  lemma {:induction false} CleanTextIdempotent(s: string)
    ensures CleanText(CleanText(s)) == CleanText(s)
  {
    var t := CleanText(s);
    CollapseClean(t);
    TrimOfTrimmed(t, IsJsSpace);
  }

  // ---------------------------------------------------------------------
  // The words of a paragraph

  /** A word: one or more characters, none of them blank. */
  predicate IsWord(w: string) {
    w != [] && forall k :: 0 <= k < |w| ==> !IsJsSpace(w[k])
  }

  /** The words of a text: its maximal runs of non-blank characters, in
      order. Read from the front, a non-blank character is a word of its
      own when a blank or the end follows it, and otherwise starts the
      word that follows. */
  function Words(s: string): (ws: seq<string>)
    ensures forall i :: 0 <= i < |ws| ==> IsWord(ws[i])
    ensures s != [] && !IsJsSpace(s[0]) ==> ws != [] && ws[0] != [] && ws[0][0] == s[0]
  {
    if s == [] then []
    else
      var rest := Words(s[1..]);
      if IsJsSpace(s[0]) then rest
      else if |s| == 1 || IsJsSpace(s[1]) then [[s[0]]] + rest
      else [[s[0]] + rest[0]] + rest[1..]
  }

  /** `" "` when `b`, else nothing. */
  function Pad(b: bool): string {
    if b then " " else ""
  }

  predicate BlankFirst(s: string) {
    s != [] && IsJsSpace(s[0])
  }

  predicate BlankLast(s: string) {
    s != [] && IsJsSpace(s[|s| - 1])
  }

  /** A text has no word exactly when it is all blanks. */
  lemma {:induction false} WordsNone(s: string)
    ensures Words(s) == [] <==> forall k :: 0 <= k < |s| ==> IsJsSpace(s[k])
  {
    if s != [] {
      WordsNone(s[1..]);
      assert forall k :: 1 <= k < |s| ==> s[k] == s[1..][k - 1];
    }
  }

  /** Leading blanks do not change the words. */
  lemma {:induction false} WordsAfterBlanks(s: string)
    ensures Words(TrimStart(s, IsJsSpace)) == Words(s)
  {
    if s != [] && IsJsSpace(s[0]) {
      WordsAfterBlanks(s[1..]);
    }
  }

  /** A blank run collapses to one space. */
  lemma {:induction false} CollapseBlank(s: string)
    requires s != [] && forall k :: 0 <= k < |s| ==> IsJsSpace(s[k])
    ensures CollapseSpaces(s) == " "
  {
    TrimStartPadded(s, [], IsJsSpace);
    assert s + [] == s;
  }

  /** Putting a character in front of the first word puts it in front of
      the joined text. */
  lemma {:induction false} JoinExtendHead(c: char, ws: seq<string>, sep: string)
    requires ws != []
    ensures Join([[c] + ws[0]] + ws[1..], sep) == [c] + Join(ws, sep)
  {
    if |ws| == 1 {
      assert [[c] + ws[0]] + ws[1..] == [[c] + ws[0]];
    } else {
      JoinCons([c] + ws[0], ws[1..], sep);
      JoinCons(ws[0], ws[1..], sep);
      assert ws == [ws[0]] + ws[1..];
    }
  }

  /** `c` is the text `j`, with a space before it when `first` and one
      after it when `last`. */
  predicate Padded(c: string, first: bool, j: string, last: bool) {
    c == Pad(first) + j + Pad(last)
  }

  /** Collapsing `s` gives its words joined by single spaces, padded
      with one space for a blank run at either end. */
  predicate CollapsesToWords(s: string) {
    Padded(CollapseSpaces(s), BlankFirst(s), Join(Words(s), " "), BlankLast(s))
  }

  lemma {:induction false} PaddedPrepend(c: char, cx: string, first: bool, jx: string, last: bool)
    requires Padded(cx, first, jx, last)
    ensures Padded([c] + cx, false, [c] + Pad(first) + jx, last)
  {
  }

  lemma {:induction false} PaddedCons(c: string, j: string, last: bool)
    requires Padded(c, false, j, last)
    ensures Padded(" " + c, true, j, last)
  {
  }

  /** Trimming the front leaves the last character alone. */
  lemma {:induction false} TrimStartLast(s: string)
    requires TrimStart(s, IsJsSpace) != []
    ensures var t := TrimStart(s, IsJsSpace); !BlankFirst(t) && (BlankLast(t) <==> BlankLast(s))
  {
    var t := TrimStart(s, IsJsSpace);
    assert t[|t| - 1] == s[|s| - 1];
  }

  // The cases of `CollapseWords`, one lemma each.

  lemma {:induction false} CaseBlank(s: string)
    requires BlankFirst(s)
    requires var t := TrimStart(s, IsJsSpace); Words(t) != [] && CollapsesToWords(t)
    ensures CollapsesToWords(s)
  {
    var t := TrimStart(s, IsJsSpace);
    WordsAfterBlanks(s);
    TrimStartLast(s);
    PaddedCons(CollapseSpaces(t), Join(Words(t), " "), BlankLast(t));
    assert CollapseSpaces(s) == " " + CollapseSpaces(t);
  }

  lemma {:induction false} CaseOne(s: string)
    requires |s| == 1 && !BlankFirst(s)
    ensures CollapsesToWords(s)
  {
    assert s[1..] == [];
    assert Words(s) == [[s[0]]];
    assert CollapseSpaces(s) == [s[0]] + CollapseSpaces([]);
  }

  lemma {:induction false} CaseWordThenBlanks(s: string)
    requires |s| > 1 && !BlankFirst(s)
    requires forall k :: 1 <= k < |s| ==> IsJsSpace(s[k])
    ensures CollapsesToWords(s)
  {
    var x := s[1..];
    assert forall k :: 0 <= k < |x| ==> x[k] == s[k + 1];
    WordsNone(x);
    CollapseBlank(x);
    assert Words(s) == [[s[0]]];
    assert CollapseSpaces(s) == [s[0]] + " ";
    assert BlankLast(s);
  }

  lemma {:induction false} CaseWordThenMore(s: string)
    requires |s| > 1 && !BlankFirst(s) && BlankFirst(s[1..])
    requires Words(s[1..]) != [] && CollapsesToWords(s[1..])
    ensures CollapsesToWords(s)
  {
    var x := s[1..];
    assert x[|x| - 1] == s[|s| - 1];
    PaddedPrepend(s[0], CollapseSpaces(x), true, Join(Words(x), " "), BlankLast(x));
    assert CollapseSpaces(s) == [s[0]] + CollapseSpaces(x);
    assert Words(s) == [[s[0]]] + Words(x);
    JoinCons([s[0]], Words(x), " ");
  }

  lemma {:induction false} CaseWordGoesOn(s: string)
    requires |s| > 1 && !BlankFirst(s) && !BlankFirst(s[1..])
    requires Words(s[1..]) != [] && CollapsesToWords(s[1..])
    ensures CollapsesToWords(s)
  {
    var x := s[1..];
    assert x[|x| - 1] == s[|s| - 1];
    PaddedPrepend(s[0], CollapseSpaces(x), false, Join(Words(x), " "), BlankLast(x));
    assert CollapseSpaces(s) == [s[0]] + CollapseSpaces(x);
    JoinExtendHead(s[0], Words(x), " ");
  }

  /** Collapsing keeps the words, one space between neighbours, and one
      space for a blank run at either end. */
  lemma {:induction false} CollapseWords(s: string)
    requires Words(s) != []
    ensures CollapsesToWords(s)
    decreases |s|
  {
    if BlankFirst(s) {
      var t := TrimStart(s, IsJsSpace);
      WordsAfterBlanks(s);
      CollapseWords(t);
      CaseBlank(s);
    } else if |s| == 1 {
      CaseOne(s);
    } else if BlankFirst(s[1..]) {
      WordsNone(s[1..]);
      if Words(s[1..]) != [] {
        CollapseWords(s[1..]);
        CaseWordThenMore(s);
      } else {
        assert forall k :: 1 <= k < |s| ==> s[k] == s[1..][k - 1];
        CaseWordThenBlanks(s);
      }
    } else {
      CollapseWords(s[1..]);
      CaseWordGoesOn(s);
    }
  }

  /** Joining words with single spaces starts and ends with a word character. */
  lemma {:induction false} JoinedWordsEnds(ws: seq<string>)
    requires ws != [] && forall i :: 0 <= i < |ws| ==> IsWord(ws[i])
    ensures var j := Join(ws, " "); j != [] && !IsJsSpace(j[0]) && !IsJsSpace(j[|j| - 1])
    decreases |ws|
  {
    if |ws| > 1 {
      JoinedWordsEnds(ws[1..]);
      JoinCons(ws[0], ws[1..], " ");
      assert ws == [ws[0]] + ws[1..];
    }
  }

  /** The cleaned text is the page's words joined by single spaces. */
  lemma {:induction false} CleanTextWords(s: string)
    requires Words(s) != []
    ensures CleanText(s) == Join(Words(s), " ")
  {
    CollapseWords(s);
    assert CollapseSpaces(s) == Pad(BlankFirst(s)) + Join(Words(s), " ") + Pad(BlankLast(s));
    JoinedWordsEnds(Words(s));
    TrimPadded(Pad(BlankFirst(s)), Join(Words(s), " "), Pad(BlankLast(s)), IsJsSpace);
  }

  /** `text.split(/\s+/)` on the cleaned text gives back the words. */
  lemma {:induction false} SplitCleanText(s: string)
    requires Words(s) != []
    ensures Split(CleanText(s), ' ') == Words(s)
  {
    CleanTextWords(s);
    var ws := Words(s);
    assert IsJsSpace(' ');
    assert forall i :: 0 <= i < |ws| ==> IsWord(ws[i]);
    SplitJoin(ws, ' ');
  }

  // ---------------------------------------------------------------------
  // Counting

  /** JavaScript's `length`: UTF-16 code units, two for a character beyond
      U+FFFF. */
  function Utf16Length(s: string): (n: nat)
    ensures |s| <= n <= 2 * |s|
    ensures n == |s| <==> forall k :: 0 <= k < |s| ==> s[k] as int <= 0xFFFF
  {
    if s == [] then 0
    else
      assert forall k :: 1 <= k < |s| ==> s[1..][k - 1] == s[k];
      (if s[0] as int > 0xFFFF then 2 else 1) + Utf16Length(s[1..])
  }

  /** Ten mathematical bold capitals and a space: eleven characters, but
      twenty-one UTF-16 code units, so the paragraph is long enough. */
  lemma {:induction false} AstralLength()
    ensures var t := "\U{1d400}\U{1d401}\U{1d402}\U{1d403}\U{1d404} \U{1d405}\U{1d406}\U{1d407}\U{1d408}\U{1d409}";
      |t| == 11 && Utf16Length(t) == 21
  {
  }

  /** The token contains a letter or a digit. */
  predicate HasWordChar(tok: string, isWordChar: char -> bool) {
    exists i :: 0 <= i < |tok| && isWordChar(tok[i])
  }

  /** The positions of the tokens that contain a letter or digit. */
  function WordPositions(tokens: seq<string>, isWordChar: char -> bool): set<nat> {
    set k: nat | k < |tokens| && HasWordChar(tokens[k], isWordChar)
  }

  /** The last token's position joins the positions of the others
      exactly when it holds a letter or digit. */
  lemma {:induction false} WordPositionsLast(tokens: seq<string>, isWordChar: char -> bool)
    requires tokens != []
    ensures var init := tokens[..|tokens| - 1];
      && |tokens| - 1 !in WordPositions(init, isWordChar)
      && WordPositions(tokens, isWordChar)
         == WordPositions(init, isWordChar)
            + (if HasWordChar(tokens[|tokens| - 1], isWordChar) then {|tokens| - 1} else {})
  {
    var init := tokens[..|tokens| - 1];
    assert forall k :: 0 <= k < |init| ==> init[k] == tokens[k];
  }

  /** How many of the tokens contain a letter or digit
      (`filter(...).length`). */
  function CountWords(tokens: seq<string>, isWordChar: char -> bool): (n: nat)
    ensures n == |WordPositions(tokens, isWordChar)|
    ensures n <= |tokens|
    ensures n == |tokens| <==> forall k :: 0 <= k < |tokens| ==> HasWordChar(tokens[k], isWordChar)
    ensures n == 0 <==> forall k :: 0 <= k < |tokens| ==> !HasWordChar(tokens[k], isWordChar)
    decreases |tokens|
  {
    if tokens == [] then
      assert WordPositions(tokens, isWordChar) == {};
      0
    else
      var init := tokens[..|tokens| - 1];
      var rest := CountWords(init, isWordChar);
      assert forall k :: 0 <= k < |init| ==> init[k] == tokens[k];
      WordPositionsLast(tokens, isWordChar);
      rest + (if HasWordChar(tokens[|tokens| - 1], isWordChar) then 1 else 0)
  }

  /** The words one paragraph contributes: none when it is excluded or
      its cleaned text is shorter than 20 UTF-16 code units, otherwise
      those of its words that hold a letter or digit. */
  function ParagraphWords(p: Paragraph, isWordChar: char -> bool): (n: nat)
    ensures p.excluded ==> n == 0
    ensures Utf16Length(CleanText(p.text)) < MIN_PARAGRAPH_CHARS ==> n == 0
    ensures !p.excluded && Utf16Length(CleanText(p.text)) >= MIN_PARAGRAPH_CHARS ==>
      n == CountWords(Words(p.text), isWordChar)
  {
    if p.excluded then 0
    else
      var text := CleanText(p.text);
      if text == [] || Utf16Length(text) < MIN_PARAGRAPH_CHARS then 0
      else
        WordsNone(p.text);
        SplitCleanText(p.text);
        CountWords(Split(text, ' '), isWordChar)
  }

  /** The reducer: words summed over the paragraphs in document order. */
  function TotalWords(ps: seq<Paragraph>, isWordChar: char -> bool): nat {
    if ps == [] then 0
    else TotalWords(ps[..|ps| - 1], isWordChar) + ParagraphWords(ps[|ps| - 1], isWordChar)
  }

  /** Splitting the page anywhere splits the count. */
  lemma {:induction false} TotalWordsAppend(a: seq<Paragraph>, b: seq<Paragraph>, isWordChar: char -> bool)
    ensures TotalWords(a + b, isWordChar) == TotalWords(a, isWordChar) + TotalWords(b, isWordChar)
    decreases |b|
  {
    if b == [] {
      assert a + b == a;
    } else {
      var b' := b[..|b| - 1];
      assert (a + b)[..|a + b| - 1] == a + b';
      assert (a + b)[|a + b| - 1] == b[|b| - 1];
      TotalWordsAppend(a, b', isWordChar);
    }
  }

  /** Excluded paragraphs never count, wherever they are. */
  lemma {:induction false} ExcludedAddNothing(ps: seq<Paragraph>, isWordChar: char -> bool)
    requires forall k :: 0 <= k < |ps| ==> ps[k].excluded
    ensures TotalWords(ps, isWordChar) == 0
    decreases |ps|
  {
    if ps != [] {
      ExcludedAddNothing(ps[..|ps| - 1], isWordChar);
    }
  }

  /** `Math.ceil(totalWords / WORDS_PER_MINUTE)`. */
  function Minutes(total: nat): (m: nat)
    ensures total > 0 ==> m >= 1
    ensures (m * WORDS_PER_MINUTE) >= total
    ensures m > 0 ==> (m - 1) * WORDS_PER_MINUTE < total
  {
    (total + WORDS_PER_MINUTE - 1) / WORDS_PER_MINUTE
  }

  /** What the page's `#readingTime` label says afterwards: `None` when
      it is left untouched (no countable word, or no label element),
      otherwise the number shown before " min read". */
  function ReadingTimeLabel(ps: seq<Paragraph>, isWordChar: char -> bool, hasLabel: bool): (r: Option<nat>)
    ensures r.Some? <==> hasLabel && TotalWords(ps, isWordChar) > 0
    ensures r.Some? ==>
      && r.value >= 1
      && (r.value - 1) * WORDS_PER_MINUTE < TotalWords(ps, isWordChar) <= r.value * WORDS_PER_MINUTE
  {
    var total := TotalWords(ps, isWordChar);
    if total > 0 && hasLabel then Some(Minutes(total)) else None
  }

  /** 450 counted words read in two minutes; 451 take three. */
  lemma {:induction false} MinutesExamples()
    ensures Minutes(450) == 2 && Minutes(451) == 3 && Minutes(1) == 1 && Minutes(225) == 1
  {
  }
}
