/** The `:style:` and `:email:` roles of theme/extensions/roles.py.

    A role receives the raw markup, the text between the backquotes and
    its line number, and returns the nodes to insert plus any system
    messages. The page title the email role falls back on is the input
    `pageTitle`: the text of the last child of the document's first title,
    `None` when the document has no title (or the title is empty). */
module Roles {
  import opened Wrappers
  import opened Strings

  datatype Node =
    | Raw(text: string, format: string)
    | Problematic(rawtext: string)
    | Reference(rawtext: string, text: string, refuri: string, line: int)

  /** The error the style role reports: "Invalid style: …" at `line`. */
  datatype Message = InvalidStyle(text: string, line: int)

  datatype RoleOutput = RoleOutput(nodes: seq<Node>, messages: seq<Message>)

  /** The Python exception a role lets escape. */
  datatype RoleError = ValueError | IndexError

  /** Python's `s.split(c, 1)` gives exactly `[a, b]`. */
  predicate SplitAt(s: string, c: char, a: string, b: string) {
    s == a + [c] + b && c !in a
  }

  /** The split at the first separator is the only one. */
  lemma {:induction false} SplitAtUnique(s: string, c: char)
    ensures forall a, b | SplitAt(s, c, a, b) :: a == BeforeFirst(s, c) && b == s[|a| + 1..]
  {
    forall a, b | SplitAt(s, c, a, b) ensures a == BeforeFirst(s, c) && b == s[|a| + 1..] {
      assert s == a + ([c] + b);
      BeforeFirstOf(a, [c] + b, c);
    }
  }

  /** A split puts the separator into the text. */
  lemma {:induction false} SplitAtHas(s: string, c: char)
    ensures forall a, b | SplitAt(s, c, a, b) :: c in s
  {
    forall a, b | SplitAt(s, c, a, b) ensures c in s {
      assert s[|a|] == c;
    }
  }

  /** With the separator present, the split exists. */
  lemma {:induction false} SplitAtExists(s: string, c: char)
    requires c in s
    ensures |BeforeFirst(s, c)| < |s|
    ensures SplitAt(s, c, BeforeFirst(s, c), s[|BeforeFirst(s, c)| + 1..])
  {
    var a := BeforeFirst(s, c);
    assert s == a + [c] + s[|a| + 1..];
  }

  // ---------------------------------------------------------------------
  // :style:`text <css>`

  function SpanHtml(style: string, element: string): string {
    "<span style=\"" + style + "\">" + element + "</span>"
  }

  /** Without a `<` the role reports one error and inserts a problematic
      node; otherwise the text before the first `<` (stripped) is wrapped
      in a span whose style is the text after it, stripped, with the
      trailing `>` removed. */
  function Stylise(rawtext: string, text: string, lineno: int): (r: RoleOutput)
    // Exactly one node is inserted; a message comes only with the error.
    ensures |r.nodes| == 1 && ('<' in text ==> r.messages == [])
    ensures '<' !in text ==> r == RoleOutput([Problematic(rawtext)], [InvalidStyle(text, lineno)])
    ensures forall a, b | SplitAt(text, '<', a, b) ::
      r == RoleOutput([Raw(SpanHtml(RStripGt(PyStrip(b)), PyStrip(a)), "html")], [])
  {
    if '<' !in text then RoleOutput([Problematic(rawtext)], [InvalidStyle(text, lineno)])
    else
      SplitAtExists(text, '<');
      SplitAtUnique(text, '<');
      var element := BeforeFirst(text, '<');
      var style := text[|element| + 1..];
      RoleOutput([Raw(SpanHtml(RStripGt(PyStrip(style)), PyStrip(element)), "html")], [])
  }

  lemma {:induction false} StripPadded(pre: string, x: string, post: string)
    requires forall k :: 0 <= k < |pre| ==> IsPySpace(pre[k])
    requires forall k :: 0 <= k < |post| ==> IsPySpace(post[k])
    requires Stripped(x)
    ensures PyStrip(pre + x + post) == x
  {
    TrimPadded(pre, x, post, IsPySpace);
  }

  lemma {:induction false} RStripGtClosing(x: string)
    requires x == [] || x[|x| - 1] != '>'
    ensures RStripGt(x + ">") == x
  {
    TrimEndPadded(x, ">", IsGt);
  }

  /** The documented form `caption <css>` gives the span the author wrote. */
  lemma {:induction false} StyliseRoundTrip(rawtext: string, caption: string, css: string, lineno: int)
    requires '<' !in caption && Stripped(caption)
    requires Stripped(css) && (css == [] || css[|css| - 1] != '>')
    ensures Stylise(rawtext, caption + " <" + css + ">", lineno)
            == RoleOutput([Raw(SpanHtml(css, caption), "html")], [])
  {
    var text := caption + " <" + css + ">";
    var a, b := caption + " ", css + ">";
    ShapeDefault(caption, css);
    assert Stylise(rawtext, text, lineno)
        == RoleOutput([Raw(SpanHtml(RStripGt(PyStrip(b)), PyStrip(a)), "html")], []);
    StripTrailingBlank(caption);
    StrippedClosed(css);
    StripNoop(b);
    RStripGtClosing(css);
  }

  // ---------------------------------------------------------------------
  // :email:`caption <address>` and :email:`caption <address | subject>`

  function MailTo(address: string, subject: string): string {
    "mailto:" + address + "?subject=" + subject
  }

  function Link(rawtext: string, linkText: string, refuri: string, lineno: int): RoleOutput {
    RoleOutput([Reference(rawtext, linkText, refuri, lineno)], [])
  }

  /** The email role as written. Without a `<` the unpacking of the split
      raises; otherwise the caption and the rest are handled by
      `EmailAfterSplit`. */
  function Email(rawtext: string, text: string, lineno: int, pageTitle: Option<string>): (r: Result<RoleOutput, RoleError>)
    // Success is one reference node and no message.
    ensures r.Ok? ==> r.value.messages == [] && |r.value.nodes| == 1 && r.value.nodes[0].Reference?
    ensures '<' !in text ==> r == Err(ValueError)
    ensures forall a, b | SplitAt(text, '<', a, b) :: r == EmailAfterSplit(rawtext, a, b, lineno, pageTitle)
  {
    if '<' !in text then
      SplitAtHas(text, '<');
      Err(ValueError)
    else
      SplitAtExists(text, '<');
      SplitAtUnique(text, '<');
      var caption := BeforeFirst(text, '<');
      EmailAfterSplit(rawtext, caption, text[|caption| + 1..], lineno, pageTitle)
  }

  /** `caption` is the text before the first `<`, `rest` the text after it.
      Without a `|` the subject is the page title, and a missing title
      raises. With a `|` the link text becomes the text between `<` and
      `|`, while the address is all of `rest` up to the closing `>`, the
      `|` and the subject included. */
  function EmailAfterSplit(rawtext: string, caption: string, rest: string, lineno: int,
                           pageTitle: Option<string>): (r: Result<RoleOutput, RoleError>)
    ensures '|' !in rest && pageTitle.None? ==> r == Err(IndexError)
    ensures '|' !in rest && pageTitle.Some? ==>
      r == Ok(Link(rawtext, PyStrip(caption), MailTo(PyStrip(RStripGt(rest)), PyStrip(pageTitle.value)), lineno))
    ensures '|' in rest ==> r.Ok?
  {
    var address := PyStrip(RStripGt(rest));
    if '|' in rest then
      var h := BeforeFirst(rest, '|');
      Ok(Link(rawtext, PyStrip(h), MailTo(address, PyStrip(rest[|h| + 1..])), lineno))
    else
      match pageTitle
      case None => Err(IndexError)
      case Some(title) => Ok(Link(rawtext, PyStrip(caption), MailTo(address, PyStrip(title)), lineno))
  }

  /** The email role as its documentation describes it: the caption is the
      link text in both forms, the `>` is removed before the subject is
      split off, and the address is only the part before the `|`. */
  function EmailIntended(rawtext: string, text: string, lineno: int, pageTitle: Option<string>): (r: Result<RoleOutput, RoleError>)
    ensures '<' !in text ==> r == Err(ValueError)
    ensures forall a, b | SplitAt(text, '<', a, b) ::
      r == IntendedAfterSplit(rawtext, a, RStripGt(PyStrip(b)), lineno, pageTitle)
  {
    if '<' !in text then
      SplitAtHas(text, '<');
      Err(ValueError)
    else
      SplitAtExists(text, '<');
      SplitAtUnique(text, '<');
      var caption := BeforeFirst(text, '<');
      IntendedAfterSplit(rawtext, caption, RStripGt(PyStrip(text[|caption| + 1..])), lineno, pageTitle)
  }

  /** `inner` is the text between `<` and the closing `>`. */
  function IntendedAfterSplit(rawtext: string, caption: string, inner: string, lineno: int,
                              pageTitle: Option<string>): (r: Result<RoleOutput, RoleError>)
    ensures '|' !in inner && pageTitle.None? ==> r == Err(IndexError)
    ensures '|' !in inner && pageTitle.Some? ==>
      r == Ok(Link(rawtext, PyStrip(caption), MailTo(PyStrip(inner), PyStrip(pageTitle.value)), lineno))
    ensures '|' in inner ==> r.Ok?
  {
    if '|' in inner then
      var h := BeforeFirst(inner, '|');
      Ok(Link(rawtext, PyStrip(caption), MailTo(PyStrip(h), PyStrip(inner[|h| + 1..])), lineno))
    else
      match pageTitle
      case None => Err(IndexError)
      case Some(title) => Ok(Link(rawtext, PyStrip(caption), MailTo(PyStrip(inner), PyStrip(title)), lineno))
  }

  /** With a `|` after the `<`, the code as written takes the link text
      from before the `|`, the subject from after it, and the address from
      the whole of `rest`. */
  lemma {:induction false} SubjectSplitAsWritten(rawtext: string, caption: string, rest: string, h: string, t: string,
                                                 lineno: int, pageTitle: Option<string>)
    requires SplitAt(rest, '|', h, t)
    ensures EmailAfterSplit(rawtext, caption, rest, lineno, pageTitle)
            == Ok(Link(rawtext, PyStrip(h), MailTo(PyStrip(RStripGt(rest)), PyStrip(t)), lineno))
  {
    SplitAtUnique(rest, '|');
    assert h == BeforeFirst(rest, '|') && t == rest[|h| + 1..];
    assert '|' in rest by {
      assert rest[|h|] == '|';
    }
  }

  /** With a `|` inside the brackets, the corrected role keeps the caption
      as link text and splits address and subject at the `|`. */
  lemma {:induction false} SubjectSplitIntended(rawtext: string, caption: string, inner: string, h: string, t: string,
                                                lineno: int, pageTitle: Option<string>)
    requires SplitAt(inner, '|', h, t)
    ensures IntendedAfterSplit(rawtext, caption, inner, lineno, pageTitle)
            == Ok(Link(rawtext, PyStrip(caption), MailTo(PyStrip(h), PyStrip(t)), lineno))
  {
    SplitAtUnique(inner, '|');
    assert h == BeforeFirst(inner, '|') && t == inner[|h| + 1..];
    assert '|' in inner by {
      assert inner[|h|] == '|';
    }
  }

  /** Closing a stripped text with `>` keeps it stripped. */
  lemma {:induction false} StrippedClosed(x: string)
    requires Stripped(x)
    ensures Stripped(x + ">")
  {
    assert !IsPySpace('>');
    var y := x + ">";
    assert y[|y| - 1] == '>';
    if x != [] {
      assert y[0] == x[0];
    }
  }

  /** Two non-empty stripped texts around anything make a stripped text. */
  lemma {:induction false} StrippedJoin(x: string, mid: string, y: string)
    requires x != [] && y != [] && Stripped(x) && Stripped(y)
    ensures Stripped(x + mid + y)
  {
    var z := x + mid + y;
    assert z[0] == x[0];
    assert z[|z| - 1] == y[|y| - 1];
  }

  /** The email roles at a given split of their text. */
  lemma {:induction false} EmailAt(rawtext: string, text: string, a: string, b: string, lineno: int, pageTitle: Option<string>)
    requires SplitAt(text, '<', a, b)
    ensures Email(rawtext, text, lineno, pageTitle) == EmailAfterSplit(rawtext, a, b, lineno, pageTitle)
    ensures EmailIntended(rawtext, text, lineno, pageTitle)
            == IntendedAfterSplit(rawtext, a, RStripGt(PyStrip(b)), lineno, pageTitle)
  {
  }

  /** `caption <address>`, split at its `<`. */
  lemma {:induction false} ShapeDefault(caption: string, address: string)
    requires '<' !in caption
    ensures SplitAt(caption + " <" + address + ">", '<', caption + " ", address + ">")
  {
    assert caption + " <" + address + ">" == (caption + " ") + ['<'] + (address + ">");
  }

  /** `caption <address | subject>`, split at its `<`. */
  lemma {:induction false} ShapeWithSubject(caption: string, address: string, subject: string)
    requires '<' !in caption
    ensures SplitAt(caption + " <" + address + " | " + subject + ">", '<',
                    caption + " ", address + " | " + subject + ">")
  {
    assert caption + " <" + address + " | " + subject + ">"
        == (caption + " ") + ['<'] + (address + " | " + subject + ">");
  }

  /** `address | subject`, followed by `tail`, split at its `|`. */
  lemma {:induction false} ShapeSubject(address: string, subject: string, tail: string)
    requires '|' !in address
    ensures SplitAt(address + " | " + subject + tail, '|', address + " ", " " + subject + tail)
  {
    assert address + " | " + subject + tail == (address + " ") + ['|'] + (" " + subject + tail);
  }

  /** A stripped caption followed by one blank strips back to itself. */
  lemma {:induction false} StripTrailingBlank(x: string)
    requires Stripped(x)
    ensures PyStrip(x + " ") == x
  {
    StripPadded([], x, " ");
    assert [] + x + " " == x + " ";
  }

  /** A stripped text after one blank strips back to itself. */
  lemma {:induction false} StripLeadingBlank(x: string)
    requires Stripped(x)
    ensures PyStrip(" " + x) == x
  {
    StripPadded(" ", x, []);
    assert " " + x + [] == " " + x;
  }

  lemma {:induction false} StripNoop(x: string)
    requires Stripped(x)
    ensures PyStrip(x) == x
  {
    TrimOfTrimmed(x, IsPySpace);
  }

  /** The form without a subject works as documented in both versions:
      the caption is the link text and the page title the subject. */
  lemma {:induction false} EmailDefaultSubject(rawtext: string, caption: string, address: string, title: string, lineno: int)
    requires '<' !in caption && Stripped(caption)
    requires '|' !in address && Stripped(address) && (address == [] || address[|address| - 1] != '>')
    ensures Email(rawtext, caption + " <" + address + ">", lineno, Some(title))
            == Ok(Link(rawtext, caption, MailTo(address, PyStrip(title)), lineno))
    ensures EmailIntended(rawtext, caption + " <" + address + ">", lineno, Some(title))
            == Ok(Link(rawtext, caption, MailTo(address, PyStrip(title)), lineno))
  {
    var text := caption + " <" + address + ">";
    var a, b := caption + " ", address + ">";
    assert PyStrip(a) == caption by {
      StripTrailingBlank(caption);
    }
    assert PyStrip(RStripGt(b)) == address by {
      RStripGtClosing(address);
      StripNoop(address);
    }
    assert RStripGt(PyStrip(b)) == address by {
      StrippedClosed(address);
      StripNoop(b);
      RStripGtClosing(address);
    }
    ShapeDefault(caption, address);
    EmailAt(rawtext, text, a, b, lineno, Some(title));
    assert '|' !in b;
    StripNoop(address);
  }

  /** With a subject, the code as written links the address text, keeps
      the `|` and the subject inside the address, and leaves the closing
      `>` on the subject. */
  lemma {:induction false} EmailSubjectAsWritten(rawtext: string, caption: string, address: string, subject: string,
                              lineno: int, pageTitle: Option<string>)
    requires '<' !in caption
    requires address != [] && '|' !in address && Stripped(address)
    requires subject != [] && Stripped(subject) && subject[|subject| - 1] != '>'
    ensures Email(rawtext, caption + " <" + address + " | " + subject + ">", lineno, pageTitle)
            == Ok(Link(rawtext, address, MailTo(address + " | " + subject, subject + ">"), lineno))
  {
    var text := caption + " <" + address + " | " + subject + ">";
    var a, b := caption + " ", address + " | " + subject + ">";
    var h, t := address + " ", " " + subject + ">";
    ShapeWithSubject(caption, address, subject);
    EmailAt(rawtext, text, a, b, lineno, pageTitle);
    ShapeSubject(address, subject, ">");
    SubjectSplitAsWritten(rawtext, a, b, h, t, lineno, pageTitle);
    AsWrittenPieces(address, subject);
  }

  /** The stripped pieces the code as written takes from
      `address | subject>`. */
  lemma {:induction false} AsWrittenPieces(address: string, subject: string)
    requires address != [] && '|' !in address && Stripped(address)
    requires subject != [] && Stripped(subject) && subject[|subject| - 1] != '>'
    ensures PyStrip(address + " ") == address
    ensures PyStrip(" " + subject + ">") == subject + ">"
    ensures PyStrip(RStripGt(address + " | " + subject + ">")) == address + " | " + subject
  {
    StripTrailingBlank(address);
    assert PyStrip(" " + subject + ">") == subject + ">" by {
      var closed := subject + ">";
      StrippedClosed(subject);
      StripLeadingBlank(closed);
      assert " " + subject + ">" == " " + closed;
    }
    StripClosed(address + " | " + subject, address, subject);
  }

  /** `kept>`, the address text up to the closing `>`, strips to `kept`. */
  lemma {:induction false} StripClosed(kept: string, address: string, subject: string)
    requires kept == address + " | " + subject
    requires address != [] && Stripped(address)
    requires subject != [] && Stripped(subject) && subject[|subject| - 1] != '>'
    ensures PyStrip(RStripGt(kept + ">")) == kept
  {
    assert kept[|kept| - 1] == subject[|subject| - 1];
    RStripGtClosing(kept);
    StrippedJoin(address, " | ", subject);
    StripNoop(kept);
  }

  /** The corrected role gives the documented link: the caption as link
      text, the bare address, the subject without the `>`. */
  lemma {:induction false} EmailSubjectIntended(rawtext: string, caption: string, address: string, subject: string,
                             lineno: int, pageTitle: Option<string>)
    requires '<' !in caption && Stripped(caption)
    requires address != [] && '|' !in address && Stripped(address)
    requires subject != [] && Stripped(subject) && subject[|subject| - 1] != '>'
    ensures EmailIntended(rawtext, caption + " <" + address + " | " + subject + ">", lineno, pageTitle)
            == Ok(Link(rawtext, caption, MailTo(address, subject), lineno))
  {
    var text := caption + " <" + address + " | " + subject + ">";
    var a, b := caption + " ", address + " | " + subject + ">";
    var inner := address + " | " + subject;
    var h, t := address + " ", " " + subject;
    assert RStripGt(PyStrip(b)) == inner by {
      assert b == inner + ">";
      StrippedJoin(address, " | ", subject);
      StrippedClosed(inner);
      StripNoop(b);
      RStripGtClosing(inner);
    }
    assert SplitAt(inner, '|', h, t) by {
      ShapeSubject(address, subject, []);
      assert address + " | " + subject + [] == inner;
      assert " " + subject + [] == t;
    }
    assert PyStrip(a) == caption by {
      StripTrailingBlank(caption);
    }
    assert PyStrip(h) == address by {
      StripTrailingBlank(address);
    }
    assert PyStrip(t) == subject by {
      StripLeadingBlank(subject);
    }
    ShapeWithSubject(caption, address, subject);
    EmailAt(rawtext, text, a, b, lineno, pageTitle);
    SubjectSplitIntended(rawtext, a, inner, h, t, lineno, pageTitle);
  }

  /** The pieces of the documentation's example. */
  lemma {:induction false} DocumentedExampleText()
    ensures "email" + " <" + "xa@mes3.dev" + " | " + "Hello hello!!" + ">" == "email <xa@mes3.dev | Hello hello!!>"
  {
  }

  lemma {:induction false} DocumentedExamplePieces()
    ensures "xa@mes3.dev" + " | " + "Hello hello!!" == "xa@mes3.dev | Hello hello!!"
    ensures "Hello hello!!" + ">" == "Hello hello!!>"
    ensures Stripped("email") && Stripped("xa@mes3.dev") && Stripped("Hello hello!!")
  {
  }

  /** The documentation's own example, `email <xa@mes3.dev | Hello hello!!>`:
      as written, the link reads "xa@mes3.dev" and points at
      "mailto:xa@mes3.dev | Hello hello!!?subject=Hello hello!!>". */
  lemma {:induction false} EmailDocumentedExample(rawtext: string, lineno: int, pageTitle: Option<string>)
    ensures Email(rawtext, "email <xa@mes3.dev | Hello hello!!>", lineno, pageTitle)
            == Ok(Link(rawtext, "xa@mes3.dev", MailTo("xa@mes3.dev | Hello hello!!", "Hello hello!!>"), lineno))
  {
    DocumentedExampleText();
    DocumentedExamplePieces();
    EmailSubjectAsWritten(rawtext, "email", "xa@mes3.dev", "Hello hello!!", lineno, pageTitle);
  }

  /** The same example through the corrected role: "email" links to
      "mailto:xa@mes3.dev?subject=Hello hello!!". */
  lemma {:induction false} EmailIntendedDocumentedExample(rawtext: string, lineno: int, pageTitle: Option<string>)
    ensures EmailIntended(rawtext, "email <xa@mes3.dev | Hello hello!!>", lineno, pageTitle)
            == Ok(Link(rawtext, "email", MailTo("xa@mes3.dev", "Hello hello!!"), lineno))
  {
    DocumentedExampleText();
    DocumentedExamplePieces();
    EmailSubjectIntended(rawtext, "email", "xa@mes3.dev", "Hello hello!!", lineno, pageTitle);
  }
}
