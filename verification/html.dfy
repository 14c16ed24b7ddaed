/** The built page as the post-processing of theme/extensions/utils.py
    sees it through BeautifulSoup, and two of its passes:
    `remove_empty_toctree_divs` and `open_links_in_new_tab`. */
module Html {
  import opened Wrappers
  import opened Strings

  /** A text node (a string or a comment) or an element. The class
      attribute is kept apart from the others because BeautifulSoup reads
      it as a list of class names. */
  datatype Node =
    | Text(text: string)
    | Elem(tag: string, classes: seq<string>, attrs: map<string, string>, children: seq<Node>)

  predicate HasClass(n: Node, c: string) {
    n.Elem? && c in n.classes
  }

  /** Some element strictly below `n` is a `<tag>` (`n.find(tag)`). */
  predicate HasTagBelow(n: Node, tag: string) {
    n.Elem? && exists i :: 0 <= i < |n.children| && HasTagWithin(n.children[i], tag)
  }

  predicate HasTagWithin(n: Node, tag: string) {
    n.Elem? && (n.tag == tag || exists i :: 0 <= i < |n.children| && HasTagWithin(n.children[i], tag))
  }

  // ---------------------------------------------------------------------
  // remove_empty_toctree_divs

  /** `div.toctree-wrapper`. */
  predicate IsWrapper(n: Node) {
    n.Elem? && n.tag == "div" && "toctree-wrapper" in n.classes
  }

  /** A wrapper whose whole content is one blank text. */
  predicate EmptyWrapper(n: Node) {
    IsWrapper(n) && |n.children| == 1 && n.children[0].Text? && AllBlank(n.children[0].text)
  }

  /** The pass as it is meant to work: every empty wrapper goes. A wrapper
      is judged on its content as found, outer wrappers before inner ones,
      as the document-order loop does. */
  function Prune(ns: seq<Node>): (r: seq<Node>)
    ensures |r| <= |ns|
  {
    if ns == [] then []
    else
      var rest := Prune(ns[1..]);
      if EmptyWrapper(ns[0]) then rest
      else if ns[0].Text? then [ns[0]] + rest
      else [ns[0].(children := Prune(ns[0].children))] + rest
  }

  /** No empty wrapper anywhere among `ns` or below them. */
  predicate NoEmptyWrapper(ns: seq<Node>) {
    ns == [] ||
    (&& !EmptyWrapper(ns[0])
     && (ns[0].Elem? ==> NoEmptyWrapper(ns[0].children))
     && NoEmptyWrapper(ns[1..]))
  }

  /** A page without empty wrappers passes through unchanged. */
  lemma {:induction false} PruneKeepsFullPages(ns: seq<Node>)
    requires NoEmptyWrapper(ns)
    ensures Prune(ns) == ns
  {
    if ns != [] {
      PruneKeepsFullPages(ns[1..]);
      if ns[0].Elem? {
        PruneKeepsFullPages(ns[0].children);
      }
    }
  }

  /** The non-blank characters of every text, in document order. */
  function Visible(ns: seq<Node>): string {
    if ns == [] then []
    else
      var here := if ns[0].Text? then NonBlank(ns[0].text) else Visible(ns[0].children);
      here + Visible(ns[1..])
  }

  function NonBlank(s: string): (r: string)
    ensures |r| <= |s|
    ensures AllBlank(s) ==> r == []
  {
    if s == [] then []
    else (if IsPySpace(s[0]) then [] else [s[0]]) + NonBlank(s[1..])
  }

  /** Pruning loses no visible text. */
  lemma {:induction false} PruneKeepsText(ns: seq<Node>)
    ensures Visible(Prune(ns)) == Visible(ns)
  {
    if ns != [] {
      PruneKeepsText(ns[1..]);
      if !EmptyWrapper(ns[0]) && ns[0].Elem? {
        PruneKeepsText(ns[0].children);
        assert ([ns[0].(children := Prune(ns[0].children))] + Prune(ns[1..]))[1..] == Prune(ns[1..]);
      } else if !EmptyWrapper(ns[0]) {
        assert ([ns[0]] + Prune(ns[1..]))[1..] == Prune(ns[1..]);
      } else {
        var t := ns[0].children[0];
        assert ns[0].children == [t];
        assert Visible(ns[0].children) == NonBlank(t.text) + Visible([]);
      }
    }
  }

  /** Number of elements among `ns` and below them. */
  function Elements(ns: seq<Node>): nat {
    if ns == [] then 0
    else (if ns[0].Elem? then 1 + Elements(ns[0].children) else 0) + Elements(ns[1..])
  }

  /** Number of empty wrappers the pass meets. */
  function EmptyWrappers(ns: seq<Node>): nat {
    if ns == [] then 0
    else if EmptyWrapper(ns[0]) then 1 + EmptyWrappers(ns[1..])
    else (if ns[0].Elem? then EmptyWrappers(ns[0].children) else 0) + EmptyWrappers(ns[1..])
  }

  /** Exactly the empty wrappers are removed: every other element stays. */
  lemma {:induction false} PruneRemovesOnlyEmpty(ns: seq<Node>)
    ensures Elements(Prune(ns)) + EmptyWrappers(ns) == Elements(ns)
  {
    if ns != [] {
      PruneRemovesOnlyEmpty(ns[1..]);
      if EmptyWrapper(ns[0]) {
        assert Elements(ns[0].children) == 0 by {
          assert ns[0].children[1..] == [];
        }
      } else if ns[0].Elem? {
        PruneRemovesOnlyEmpty(ns[0].children);
        assert ([ns[0].(children := Prune(ns[0].children))] + Prune(ns[1..]))[1..] == Prune(ns[1..]);
      } else {
        assert ([ns[0]] + Prune(ns[1..]))[1..] == Prune(ns[1..]);
      }
    }
  }

  /** Python errors the pass can raise. */
  datatype PyError = TypeError

  /** The first `<tag>` element among `ns` and below them, in document
      order: `find(tag)` on their parent. */
  function FirstTagIn(ns: seq<Node>, tag: string): (r: Option<Node>)
    ensures r.Some? ==> r.value.Elem? && r.value.tag == tag
    ensures r.None? <==> forall i :: 0 <= i < |ns| ==> !HasTagWithin(ns[i], tag)
  {
    if ns == [] then None
    else if ns[0].Elem? && ns[0].tag == tag then Some(ns[0])
    else
      var inner := if ns[0].Elem? then FirstTagIn(ns[0].children, tag) else None;
      if inner.Some? then inner
      else
        assert forall i :: 1 <= i < |ns| ==> ns[1..][i - 1] == ns[i];
        FirstTagIn(ns[1..], tag)
  }

  /** Some child of `n` is an element. */
  predicate HasElementChild(n: Node) {
    n.Elem? && exists i :: 0 <= i < |n.children| && n.children[i].Elem?
  }

  /** `not child.strip()` on the wrapper's only child. On a string this is
      the blank test. On an element, BeautifulSoup reads `.strip` as
      `child.find("strip")`: `None`, which cannot be called, or the first
      `<strip>` element below, whose call lists the elements below it, so
      the test holds exactly when that `<strip>` holds text alone. */
  function BlankTest(child: Node): (r: Result<bool, PyError>)
    ensures child.Text? ==> r == Ok(AllBlank(child.text))
    ensures child.Elem? ==> (r.Err? <==> !HasTagBelow(child, "strip"))
    ensures child.Elem? && r.Ok? ==>
      var s := FirstTagIn(child.children, "strip");
      s.Some? && (r.value <==> !HasElementChild(s.value))
  {
    match child
    case Text(t) => Ok(AllBlank(t))
    case Elem(_, _, _, kids) =>
      match FirstTagIn(kids, "strip")
      case None => Err(TypeError)
      case Some(s) => Ok(!HasElementChild(s))
  }

  /** The pass as written. */
  function PruneAsWritten(ns: seq<Node>): (r: Result<seq<Node>, PyError>) {
    if ns == [] then Ok([])
    else
      var rest := PruneAsWritten(ns[1..]);
      var head: Result<seq<Node>, PyError> :=
        if ns[0].Text? then Ok([ns[0]])
        else if IsWrapper(ns[0]) && |ns[0].children| == 1 then
          match BlankTest(ns[0].children[0])
          case Err(e) => Err(e)
          case Ok(blank) =>
            if blank then Ok([])
            else
              match PruneAsWritten(ns[0].children)
              case Err(e) => Err(e)
              case Ok(kids) => Ok([ns[0].(children := kids)])
        else
          match PruneAsWritten(ns[0].children)
          case Err(e) => Err(e)
          case Ok(kids) => Ok([ns[0].(children := kids)]);
      match head
      case Err(e) => Err(e)
      case Ok(h) =>
        match rest
        case Err(e) => Err(e)
        case Ok(t) => Ok(h + t)
  }

  /** A wrapper whose only child is an element with no `<strip>` below it:
      the test raises. */
  predicate LoneElementWrapper(n: Node) {
    IsWrapper(n) && |n.children| == 1 && n.children[0].Elem? && !HasTagBelow(n.children[0], "strip")
  }

  /** A wrapper the code as written removes. */
  predicate RemovedAsWritten(n: Node) {
    IsWrapper(n) && |n.children| == 1 && BlankTest(n.children[0]) == Ok(true)
  }

  /** A wrapper whose only child is an element and which the code as
      written still removes: the first `<strip>` below holds text alone. */
  predicate StripWrapper(n: Node) {
    RemovedAsWritten(n) && n.children[0].Elem?
  }

  /** The pass as written meets a wrapper that raises. */
  predicate MeetsLoneElement(ns: seq<Node>) {
    ns != [] &&
    (|| LoneElementWrapper(ns[0])
     || (ns[0].Elem? && !RemovedAsWritten(ns[0]) && MeetsLoneElement(ns[0].children))
     || MeetsLoneElement(ns[1..]))
  }

  /** The pass as written meets a non-empty wrapper it removes. */
  predicate MeetsStripWrapper(ns: seq<Node>) {
    ns != [] &&
    (|| StripWrapper(ns[0])
     || (ns[0].Elem? && !RemovedAsWritten(ns[0]) && MeetsStripWrapper(ns[0].children))
     || MeetsStripWrapper(ns[1..]))
  }

  /** The code as written fails exactly when it meets a wrapper holding a
      single element with no `<strip>` below, and when it meets no wrapper
      holding a single element at all it does what the pass is meant to
      do. */
  lemma {:induction false} AsWrittenFailsOnLoneElement(ns: seq<Node>)
    ensures PruneAsWritten(ns).Err? <==> MeetsLoneElement(ns)
    ensures PruneAsWritten(ns).Ok? && !MeetsStripWrapper(ns) ==> PruneAsWritten(ns).value == Prune(ns)
  {
    if ns != [] {
      AsWrittenFailsOnLoneElement(ns[1..]);
      if ns[0].Elem? {
        AsWrittenFailsOnLoneElement(ns[0].children);
      }
      assert EmptyWrapper(ns[0]) ==> RemovedAsWritten(ns[0]);
    }
  }

  /** A table of contents printed without blanks around its list: the
      wrapper holds the list alone. */
  lemma {:induction false} LoneListWrapper()
    ensures var w := Elem("div", ["toctree-wrapper", "compound"], map[], [Elem("ul", [], map[], [])]);
      && PruneAsWritten([w]) == Err(TypeError)
      && Prune([w]) == [w]
  {
    var w := Elem("div", ["toctree-wrapper", "compound"], map[], [Elem("ul", [], map[], [])]);
    var ul := w.children[0];
    assert IsWrapper(w);
    assert !HasTagBelow(ul, "strip");
    assert !EmptyWrapper(ul) && !EmptyWrapper(w);
    assert [ul][1..] == [] && [w][1..] == [];
    assert Prune([ul]) == [ul.(children := Prune([]))] + Prune([]);
    assert Prune([ul]) == [ul];
    assert Prune([w]) == [w.(children := Prune([ul]))] + Prune([]);
  }

  /** A wrapper whose only child holds a `<strip>` element with text in it
      is removed by the code as written, text and all; the intended pass
      keeps it. */
  lemma {:induction false} StripWrapperRemoved()
    ensures var w := Elem("div", ["toctree-wrapper"], map[],
                          [Elem("p", [], map[], [Elem("strip", [], map[], [Text("x")])])]);
      && PruneAsWritten([w]) == Ok([])
      && Prune([w]) == [w]
  {
    var st := Elem("strip", [], map[], [Text("x")]);
    var p := Elem("p", [], map[], [st]);
    var w := Elem("div", ["toctree-wrapper"], map[], [p]);
    assert [st][1..] == [] && [p][1..] == [] && [w][1..] == [];
    assert FirstTagIn([st], "strip") == Some(st);
    assert !HasElementChild(st);
    assert BlankTest(p) == Ok(true);
    assert IsWrapper(w) && w.children[0] == p;
    assert PruneAsWritten([w]).Ok?;
    assert |PruneAsWritten([w]).value| == 0;
    assert !EmptyWrapper(w) && !EmptyWrapper(p) && !EmptyWrapper(st);
    assert Prune([Text("x")]) == [Text("x")];
    assert Prune([st]) == [st];
    assert Prune([p]) == [p];
  }

  // ---------------------------------------------------------------------
  // open_links_in_new_tab

  const REL_VALUE: string := "nofollow noopener"
  const TARGET_VALUE: string := "_blank"

  /** `a` with the class attribute "reference external": BeautifulSoup
      compares a class filter holding a space with the whole attribute. */
  predicate IsExternalLink(n: Node) {
    n.Elem? && n.tag == "a" && Join(n.classes, " ") == "reference external"
  }

  /** The link opens in a new tab without a handle on its opener. */
  predicate Safe(n: Node) {
    && n.Elem?
    && "rel" in n.attrs && n.attrs["rel"] == REL_VALUE
    && "target" in n.attrs && n.attrs["target"] == TARGET_VALUE
  }

  function NewTab(n: Node): (r: Node)
    ensures r.Text? <==> n.Text?
    ensures n.Text? ==> r == n
    ensures n.Elem? ==> r.tag == n.tag && r.classes == n.classes && |r.children| == |n.children|
    ensures n.Elem? ==> forall i :: 0 <= i < |n.children| ==> r.children[i] == NewTab(n.children[i])
    // Only an external link's attributes change, and only those two.
    ensures n.Elem? && !IsExternalLink(n) ==> r.attrs == n.attrs
    ensures IsExternalLink(n) ==> Safe(r) && r.attrs.Keys == n.attrs.Keys + {"rel", "target"}
    ensures IsExternalLink(n) ==> forall k :: k in n.attrs && k != "rel" && k != "target" ==> r.attrs[k] == n.attrs[k]
  {
    match n
    case Text(_) => n
    case Elem(tag, classes, attrs, kids) =>
      var kids' := seq(|kids|, i requires 0 <= i < |kids| => NewTab(kids[i]));
      var attrs' := if IsExternalLink(n) then attrs["rel" := REL_VALUE]["target" := TARGET_VALUE] else attrs;
      Elem(tag, classes, attrs', kids')
  }

  /** Every external link, at any depth, is safe. */
  predicate AllExternalSafe(n: Node) {
    n.Elem? ==>
      && (IsExternalLink(n) ==> Safe(n))
      && forall i :: 0 <= i < |n.children| ==> AllExternalSafe(n.children[i])
  }

  /** No external link anywhere. */
  predicate NoExternal(n: Node) {
    n.Elem? ==>
      && !IsExternalLink(n)
      && forall i :: 0 <= i < |n.children| ==> NoExternal(n.children[i])
  }

  lemma {:induction false} NewTabMakesSafe(n: Node)
    ensures AllExternalSafe(NewTab(n))
  {
    if n.Elem? {
      forall i | 0 <= i < |n.children| ensures AllExternalSafe(NewTab(n).children[i]) {
        NewTabMakesSafe(n.children[i]);
      }
    }
  }

  /** Running the pass again changes nothing. */
  lemma {:induction false} NewTabIdempotent(n: Node)
    ensures NewTab(NewTab(n)) == NewTab(n)
  {
    if n.Elem? {
      var r := NewTab(n);
      var rr := NewTab(r);
      forall i | 0 <= i < |n.children| ensures rr.children[i] == r.children[i] {
        NewTabIdempotent(n.children[i]);
      }
      if IsExternalLink(n) {
        assert rr.attrs == r.attrs;
      }
    }
  }

  /** A page without external links passes through unchanged. */
  lemma {:induction false} NewTabKeepsInternalPages(n: Node)
    requires NoExternal(n)
    ensures NewTab(n) == n
  {
    if n.Elem? {
      forall i | 0 <= i < |n.children| ensures NewTab(n).children[i] == n.children[i] {
        NewTabKeepsInternalPages(n.children[i]);
      }
    }
  }

  /** The class filter matches the two classes in this order and nothing
      else nearby: an extra class or the reverse order does not match. */
  lemma {:induction false} ExternalClassExamples()
    ensures IsExternalLink(Elem("a", ["reference", "external"], map[], []))
    ensures !IsExternalLink(Elem("a", ["reference", "external", "x"], map[], []))
    ensures !IsExternalLink(Elem("a", ["external", "reference"], map[], []))
    ensures !IsExternalLink(Elem("a", ["reference", "internal"], map[], []))
  {
    assert Join(["reference", "external"], " ") == "reference" + " " + Join(["external"], " ");
    assert Join(["reference", "external", "x"], " ") == "reference" + " " + Join(["external", "x"], " ");
    assert Join(["external", "x"], " ") == "external" + " " + Join(["x"], " ");
    assert Join(["external", "reference"], " ") == "external" + " " + Join(["reference"], " ");
    assert Join(["external", "reference"], " ")[0] == 'e';
    assert Join(["reference", "internal"], " ") == "reference" + " " + Join(["internal"], " ");
    assert Join(["reference", "internal"], " ")[10] == 'i';
    assert "reference external"[10] == 'e';
  }
}
