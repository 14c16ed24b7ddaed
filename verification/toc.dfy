/** `make_toc_collapsible` of theme/extensions/utils.py: every sidebar
    link followed by a `ul` sibling inside an `li` turns that `li` into a
    collapsible branch with a toggle button.

    The source loops over the links in document order. Handling a link
    touches only its parent `li` (classes, `aria-expanded`), the `ul` it
    controls (`id`) and the `li`'s children (the button); what it reads
    (the `current` classes, the `ul`'s id) no later link changes except the
    id it sets itself. So the loop is modelled per `li`: the links among
    its children in order, on the children as found, then the same below. */
module Toc {
  import opened Wrappers
  import opened Strings
  import opened Html

  predicate IsUl(n: Node) {
    n.Elem? && n.tag == "ul"
  }

  predicate IsLink(n: Node) {
    n.Elem? && n.tag == "a"
  }

  /** `link.find_next_sibling("ul")`: the first `ul` after position `i`. */
  function NextUl(kids: seq<Node>, i: nat): (r: Option<nat>)
    requires i < |kids|
    ensures r.Some? ==> i < r.value < |kids| && IsUl(kids[r.value])
    ensures forall k :: i < k < |kids| && (r.None? || k < r.value) ==> !IsUl(kids[k])
    decreases |kids| - i
  {
    if i + 1 == |kids| then None
    else if IsUl(kids[i + 1]) then Some(i + 1)
    else NextUl(kids, i + 1)
  }

  /** The child at `i` is a link with a `ul` after it. */
  predicate Opens(kids: seq<Node>, i: nat) {
    i < |kids| && IsLink(kids[i]) && NextUl(kids, i).Some?
  }

  /** The `ul` has an id Python counts as true. */
  predicate HasId(n: Node) {
    n.Elem? && "id" in n.attrs && n.attrs["id"] != ""
  }

  /** Decimal digits of `n`. */
  function Decimal(n: nat): (r: string)
    ensures r != []
    ensures forall k :: 0 <= k < |r| ==> '0' <= r[k] <= '9'
  {
    var d := ['0' + (n % 10) as char];
    if n < 10 then d else Decimal(n / 10) + d
  }

  /** The number a string of decimal digits reads as, most significant
      digit first. */
  function DigitsValue(s: string): int
    decreases |s|
  {
    if s == [] then 0
    else DigitsValue(s[..|s| - 1]) * 10 + (s[|s| - 1] as int - '0' as int)
  }

  /** Reading the digits back gives the number. */
  lemma {:induction false} DecimalValue(n: nat)
    ensures DigitsValue(Decimal(n)) == n
    decreases n
  {
    var d := ['0' + (n % 10) as char];
    if n >= 10 {
      DecimalValue(n / 10);
      var r := Decimal(n / 10) + d;
      assert r[..|r| - 1] == Decimal(n / 10);
    }
  }

  /** `f"nav-branch-{abs(hash(str(children))) % (10**8)}"`; the hash of the
      list's text is salted per process, so it is a parameter. */
  function GeneratedId(h: int): (r: string)
    ensures StartsWith(r, "nav-branch-") && |r| > |"nav-branch-"|
    ensures forall k :: |"nav-branch-"| <= k < |r| ==> '0' <= r[k] <= '9'
  {
    var a := if h < 0 then -h else h;
    "nav-branch-" + Decimal(a % 100000000)
  }

  /** The digits after the prefix read as the absolute hash modulo 10^8, so
      two hashes share an id exactly when they agree there. */
  lemma {:induction false} GeneratedIdValue(h: int)
    ensures DigitsValue(GeneratedId(h)[|"nav-branch-"|..]) == (if h < 0 then -h else h) % 100000000
    ensures |GeneratedId(h)| <= |"nav-branch-"| + 8
  {
    var a := if h < 0 then -h else h;
    assert GeneratedId(h)[|"nav-branch-"|..] == Decimal(a % 100000000);
    DecimalValue(a % 100000000);
    DecimalLength(a % 100000000);
  }

  /** A number below 10^8 has at most eight digits. */
  lemma {:induction false} DecimalLength(n: nat)
    requires n < 100000000
    ensures |Decimal(n)| <= 8
  {
    DecimalBelow(n, 8);
  }

  lemma {:induction false} DecimalBelow(n: nat, k: nat)
    requires k >= 1
    requires n < Pow10(k)
    ensures |Decimal(n)| <= k
    decreases k
  {
    if n >= 10 {
      assert Pow10(k) == 10 * Pow10(k - 1);
      assert n / 10 < Pow10(k - 1);
      DecimalBelow(n / 10, k - 1);
    }
  }

  function Pow10(k: nat): (r: nat)
    ensures r >= 1
  {
    if k == 0 then 1 else 10 * Pow10(k - 1)
  }

  /** The id the `ul` ends with: its own when it has one. */
  function BranchId(ul: Node, hash: Node -> int): (r: string)
    ensures r != []
    ensures HasId(ul) ==> r == ul.attrs["id"]
    ensures !HasId(ul) ==> StartsWith(r, "nav-branch-")
  {
    if HasId(ul) then ul.attrs["id"] else GeneratedId(hash(ul))
  }

  /** An element below `n` has class "current" (`n.select(".current")`). */
  predicate HasCurrentBelow(n: Node) {
    n.Elem? && exists i :: 0 <= i < |n.children| && CurrentWithin(n.children[i])
  }

  predicate CurrentWithin(n: Node) {
    n.Elem? && ("current" in n.classes || exists i :: 0 <= i < |n.children| && CurrentWithin(n.children[i]))
  }

  /** Whether the branch of the link at `i` starts out expanded. */
  predicate IsCurrent(liClasses: seq<string>, kids: seq<Node>, i: nat)
    requires Opens(kids, i)
  {
    || "current" in liClasses
    || "current" in kids[i].classes
    || HasCurrentBelow(kids[NextUl(kids, i).value])
  }

  function Expanded(current: bool): string {
    if current then "true" else "false"
  }

  /** `list(set(classes))`: the classes once each. Python's set has no
      order; the model keeps the first occurrences. */
  function Dedupe(s: seq<string>): (r: seq<string>)
    ensures NoDup(r)
    ensures forall x :: x in r <==> x in s
  {
    if s == [] then []
    else
      var r := Dedupe(s[..|s| - 1]);
      assert forall x :: x in s <==> x in s[..|s| - 1] || x == s[|s| - 1] by {
        assert s == s[..|s| - 1] + [s[|s| - 1]];
      }
      if s[|s| - 1] in r then r else r + [s[|s| - 1]]
  }

  predicate NoDup(s: seq<string>) {
    forall i, j :: 0 <= i < j < |s| ==> s[i] != s[j]
  }

  /** The toggle button inserted after a link. */
  function Button(id: string): Node {
    Elem("button", ["nav-toggle"], map["type" := "button", "aria-controls" := id],
         [Elem("span", ["sr-only"], map[], [Text("Toggle section")])])
  }

  // ---------------------------------------------------------------------
  // The loop over one `li`'s links

  /** The `li`'s classes and attributes, its children with the ids set so
      far, and for each child the id its button controls, if it got one. */
  datatype Level = Level(classes: seq<string>, attrs: map<string, string>,
                         work: seq<Node>, controls: seq<Option<string>>)

  predicate Fits(kids: seq<Node>, st: Level) {
    && |st.work| == |kids| && |st.controls| == |kids|
    && forall k :: 0 <= k < |kids| && IsUl(kids[k]) ==> st.work[k].Elem?
  }

  /** One turn of the loop, for the child at `i`. */
  function LinkStep(kids: seq<Node>, st: Level, i: nat, hash: Node -> int): (r: Level)
    requires Fits(kids, st) && i < |kids|
    ensures Fits(kids, r)
  {
    if !Opens(kids, i) then st
    else
      var j := NextUl(kids, i).value;
      var ul := st.work[j];
      var id := BranchId(ul, hash);
      var current := "current" in st.classes || "current" in kids[i].classes || HasCurrentBelow(ul);
      Level(Dedupe(st.classes + ["has-children"]),
            st.attrs["aria-expanded" := Expanded(current)],
            st.work[j := ul.(attrs := ul.attrs["id" := id])],
            st.controls[i := Some(id)])
  }

  function Pass(kids: seq<Node>, st: Level, i: nat, hash: Node -> int): (r: Level)
    requires Fits(kids, st) && i <= |kids|
    ensures Fits(kids, r)
    decreases |kids| - i
  {
    if i == |kids| then st else Pass(kids, LinkStep(kids, st, i, hash), i + 1, hash)
  }

  // ---------------------------------------------------------------------
  // What the loop leaves behind, stated per child

  /** The last link before `i` that opens a branch. */
  function LastOpen(kids: seq<Node>, i: nat): (r: Option<nat>)
    requires i <= |kids|
    ensures r.Some? ==> r.value < i && Opens(kids, r.value)
    ensures r.Some? ==> forall k :: r.value < k < i ==> !Opens(kids, k)
    ensures r.None? ==> forall k :: 0 <= k < i ==> !Opens(kids, k)
  {
    if i == 0 then None
    else if Opens(kids, i - 1) then Some(i - 1)
    else LastOpen(kids, i - 1)
  }

  /** Some link before `i` controls the `ul` at `j`. */
  ghost predicate Targeted(kids: seq<Node>, j: nat, i: nat) {
    exists k :: 0 <= k < i && Opens(kids, k) && NextUl(kids, k) == Some(j)
  }

  function WithId(ul: Node, hash: Node -> int): Node
    requires ul.Elem?
  {
    ul.(attrs := ul.attrs["id" := BranchId(ul, hash)])
  }

  /** The state after the links before `i`, described child by child. */
  ghost predicate Done(classes: seq<string>, attrs: map<string, string>, kids: seq<Node>,
                       st: Level, i: nat, hash: Node -> int)
    requires i <= |kids|
  {
    && Fits(kids, st)
    && DoneControls(kids, st, i, hash)
    && DoneWork(kids, st, i, hash)
    && DoneLi(classes, attrs, kids, st, i)
  }

  ghost predicate DoneControls(kids: seq<Node>, st: Level, i: nat, hash: Node -> int)
    requires i <= |kids| && Fits(kids, st)
  {
    forall k :: 0 <= k < |kids| ==>
      st.controls[k] == (if k < i && Opens(kids, k) then Some(BranchId(kids[NextUl(kids, k).value], hash)) else None)
  }

  ghost predicate DoneWork(kids: seq<Node>, st: Level, i: nat, hash: Node -> int)
    requires i <= |kids| && Fits(kids, st)
  {
    forall j :: 0 <= j < |kids| ==>
      st.work[j] == (if Targeted(kids, j, i) then WithId(kids[j], hash) else kids[j])
  }

  ghost predicate DoneLi(classes: seq<string>, attrs: map<string, string>, kids: seq<Node>, st: Level, i: nat)
    requires i <= |kids|
  {
    && (LastOpen(kids, i).None? ==> st.classes == classes && st.attrs == attrs)
    && (LastOpen(kids, i).Some? ==>
          && NoDup(st.classes)
          && (forall c :: c in st.classes <==> c in classes || c == "has-children")
          && st.attrs == attrs["aria-expanded" := Expanded(IsCurrent(classes, kids, LastOpen(kids, i).value))])
  }

  /** The `ul` a link meets carries the id it will end with. */
  lemma {:induction false} UlSeen(kids: seq<Node>, st: Level, i: nat, hash: Node -> int)
    requires i < |kids| && Opens(kids, i) && Fits(kids, st) && DoneWork(kids, st, i, hash)
    ensures var j := NextUl(kids, i).value;
      && BranchId(st.work[j], hash) == BranchId(kids[j], hash)
      && st.work[j].children == kids[j].children
      && st.work[j].(attrs := st.work[j].attrs["id" := BranchId(kids[j], hash)]) == WithId(kids[j], hash)
  {
    var j := NextUl(kids, i).value;
    if Targeted(kids, j, i) {
      assert st.work[j] == WithId(kids[j], hash);
      assert HasId(st.work[j]);
    }
  }

  lemma {:induction false} StepControls(kids: seq<Node>, st: Level, i: nat, hash: Node -> int)
    requires i < |kids| && Fits(kids, st) && DoneControls(kids, st, i, hash) && DoneWork(kids, st, i, hash)
    ensures DoneControls(kids, LinkStep(kids, st, i, hash), i + 1, hash)
  {
    if Opens(kids, i) {
      UlSeen(kids, st, i, hash);
    }
  }

  lemma {:induction false} StepWork(kids: seq<Node>, st: Level, i: nat, hash: Node -> int)
    requires i < |kids| && Fits(kids, st) && DoneWork(kids, st, i, hash)
    ensures DoneWork(kids, LinkStep(kids, st, i, hash), i + 1, hash)
  {
    var r := LinkStep(kids, st, i, hash);
    if Opens(kids, i) {
      var j := NextUl(kids, i).value;
      UlSeen(kids, st, i, hash);
      forall k | 0 <= k < |kids|
        ensures r.work[k] == (if Targeted(kids, k, i + 1) then WithId(kids[k], hash) else kids[k])
      {
        if k == j {
          assert Targeted(kids, k, i + 1);
        } else {
          assert Targeted(kids, k, i + 1) <==> Targeted(kids, k, i);
        }
      }
    } else {
      forall k | 0 <= k < |kids| ensures Targeted(kids, k, i + 1) <==> Targeted(kids, k, i) {
      }
    }
  }

  lemma {:induction false} StepLi(classes: seq<string>, attrs: map<string, string>, kids: seq<Node>,
               st: Level, i: nat, hash: Node -> int)
    requires i < |kids| && Fits(kids, st) && DoneWork(kids, st, i, hash) && DoneLi(classes, attrs, kids, st, i)
    ensures DoneLi(classes, attrs, kids, LinkStep(kids, st, i, hash), i + 1)
  {
    if Opens(kids, i) {
      var j := NextUl(kids, i).value;
      UlSeen(kids, st, i, hash);
      LiClasses(classes, st.classes, LastOpen(kids, i).None?);
      var cur := IsCurrent(classes, kids, i);
      assert cur == ("current" in st.classes || "current" in kids[i].classes || HasCurrentBelow(st.work[j]));
      var w := if LastOpen(kids, i).None? then "" else Expanded(IsCurrent(classes, kids, LastOpen(kids, i).value));
      LiAttrs(attrs, st.attrs, w, Expanded(cur));
      assert LastOpen(kids, i + 1) == Some(i);
    }
  }

  /** The `li`'s classes after one more opening link. */
  lemma {:induction false} LiClasses(classes: seq<string>, sc: seq<string>, first: bool)
    requires first ==> sc == classes
    requires !first ==> forall c :: c in sc <==> c in classes || c == "has-children"
    ensures ("current" in sc) == ("current" in classes)
    ensures NoDup(Dedupe(sc + ["has-children"]))
    ensures forall c :: c in Dedupe(sc + ["has-children"]) <==> c in classes || c == "has-children"
  {
    assert forall c :: c in sc + ["has-children"] <==> c in sc || c == "has-children";
  }

  /** The `li`'s attributes after one more opening link. */
  lemma {:induction false} LiAttrs(attrs: map<string, string>, sa: map<string, string>, w: string, v: string)
    requires sa == attrs || sa == attrs["aria-expanded" := w]
    ensures sa["aria-expanded" := v] == attrs["aria-expanded" := v]
  {
  }

  lemma {:induction false} StepDone(classes: seq<string>, attrs: map<string, string>, kids: seq<Node>,
                                    st: Level, i: nat, hash: Node -> int)
    requires i < |kids| && Done(classes, attrs, kids, st, i, hash)
    ensures Done(classes, attrs, kids, LinkStep(kids, st, i, hash), i + 1, hash)
  {
    StepControls(kids, st, i, hash);
    StepWork(kids, st, i, hash);
    StepLi(classes, attrs, kids, st, i, hash);
  }

  /** What every turn of the loop keeps, the whole loop keeps. */
  lemma {:induction false} PassKeeps(kids: seq<Node>, st: Level, i: nat, hash: Node -> int,
                                     inv: (Level, nat) -> bool)
    requires i <= |kids| && Fits(kids, st) && inv(st, i)
    requires forall s: Level, j: nat :: j < |kids| && Fits(kids, s) && inv(s, j) ==> inv(LinkStep(kids, s, j, hash), j + 1)
    ensures inv(Pass(kids, st, i, hash), |kids|)
    decreases |kids| - i
  {
    if i < |kids| {
      PassKeeps(kids, LinkStep(kids, st, i, hash), i + 1, hash, inv);
    }
  }

  /** `Done` as a property of the state and the position. */
  ghost function DoneAt(classes: seq<string>, attrs: map<string, string>, kids: seq<Node>,
                        hash: Node -> int): (Level, nat) -> bool
  {
    (s: Level, j: nat) => j <= |kids| && Done(classes, attrs, kids, s, j, hash)
  }

  lemma {:induction false} StepsKeepDone(classes: seq<string>, attrs: map<string, string>, kids: seq<Node>,
                                         hash: Node -> int)
    ensures var inv := DoneAt(classes, attrs, kids, hash);
      forall s: Level, j: nat :: j < |kids| && Fits(kids, s) && inv(s, j) ==> inv(LinkStep(kids, s, j, hash), j + 1)
  {
    var inv := DoneAt(classes, attrs, kids, hash);
    forall s: Level, j: nat | j < |kids| && Fits(kids, s) && inv(s, j)
      ensures inv(LinkStep(kids, s, j, hash), j + 1)
    {
      StepDone(classes, attrs, kids, s, j, hash);
    }
  }

  /** The loop over an `li`'s children ends as described child by child. */
  lemma {:induction false} LevelDone(classes: seq<string>, attrs: map<string, string>, kids: seq<Node>,
                                     hash: Node -> int)
    ensures Done(classes, attrs, kids, Pass(kids, Start(classes, attrs, kids), 0, hash), |kids|, hash)
  {
    var inv := DoneAt(classes, attrs, kids, hash);
    StartDone(classes, attrs, kids, hash);
    StepsKeepDone(classes, attrs, kids, hash);
    PassKeeps(kids, Start(classes, attrs, kids), 0, hash, inv);
  }

  lemma {:induction false} StartDone(classes: seq<string>, attrs: map<string, string>, kids: seq<Node>,
                                     hash: Node -> int)
    ensures Done(classes, attrs, kids, Start(classes, attrs, kids), 0, hash)
  {
    var start := Start(classes, attrs, kids);
    assert forall j :: 0 <= j < |kids| ==> !Targeted(kids, j, 0);
  }

  function Start(classes: seq<string>, attrs: map<string, string>, kids: seq<Node>): (st: Level)
    ensures Fits(kids, st)
  {
    Level(classes, attrs, kids, seq(|kids|, _ => None))
  }

  /** The loop over one `li`'s children. */
  function CollapseLevel(classes: seq<string>, attrs: map<string, string>, kids: seq<Node>,
                         hash: Node -> int): (st: Level)
    ensures Fits(kids, st)
    // Each opening link gets a button controlling its `ul`'s final id ...
    ensures forall k :: 0 <= k < |kids| ==>
      st.controls[k] == (if Opens(kids, k) then Some(BranchId(kids[NextUl(kids, k).value], hash)) else None)
    // ... a controlled `ul` keeps a true id and gets one otherwise, and
    // every other child is left as it was.
    ensures forall j :: 0 <= j < |kids| ==>
      st.work[j] == (if Targeted(kids, j, |kids|) then WithId(kids[j], hash) else kids[j])
    // Without such a link the `li` keeps its classes and attributes ...
    ensures LastOpen(kids, |kids|).None? ==> st.classes == classes && st.attrs == attrs
    // ... with one it has "has-children" once and its classes otherwise,
    // and is expanded as the last such link's branch is current.
    ensures LastOpen(kids, |kids|).Some? ==>
      && NoDup(st.classes)
      && (forall c :: c in st.classes <==> c in classes || c == "has-children")
      && st.attrs == attrs["aria-expanded" := Expanded(IsCurrent(classes, kids, LastOpen(kids, |kids|).value))]
  {
    LevelDone(classes, attrs, kids, hash);
    Pass(kids, Start(classes, attrs, kids), 0, hash)
  }

  /** The children in order, each followed by its button if it got one. */
  function Emit(nodes: seq<Node>, controls: seq<Option<string>>): (r: seq<Node>)
    requires |nodes| == |controls|
  {
    if nodes == [] then []
    else [nodes[0]] + Buttons(controls[0]) + Emit(nodes[1..], controls[1..])
  }

  function Buttons(control: Option<string>): seq<Node> {
    if control.Some? then [Button(control.value)] else []
  }

  /** Emitting two runs of children is emitting each in turn. */
  lemma {:induction false} EmitAppend(a: seq<Node>, ca: seq<Option<string>>, b: seq<Node>, cb: seq<Option<string>>)
    requires |a| == |ca| && |b| == |cb|
    ensures Emit(a + b, ca + cb) == Emit(a, ca) + Emit(b, cb)
    decreases |a|
  {
    if a == [] {
      assert a + b == b && ca + cb == cb;
    } else {
      assert (a + b)[1..] == a[1..] + b && (ca + cb)[1..] == ca[1..] + cb;
      EmitAppend(a[1..], ca[1..], b, cb);
    }
  }

  /** The button comes right after the link it belongs to. */
  lemma {:induction false} EmitAt(nodes: seq<Node>, controls: seq<Option<string>>, i: nat)
    requires |nodes| == |controls| && i < |nodes|
    ensures Emit(nodes, controls) ==
      Emit(nodes[..i], controls[..i]) + [nodes[i]] + Buttons(controls[i])
      + Emit(nodes[i + 1..], controls[i + 1..])
  {
    assert nodes == nodes[..i] + nodes[i..] && controls == controls[..i] + controls[i..];
    EmitAppend(nodes[..i], controls[..i], nodes[i..], controls[i..]);
    assert nodes[i..][1..] == nodes[i + 1..] && controls[i..][1..] == controls[i + 1..];
  }

  /** Without buttons the children are emitted as they are. */
  lemma {:induction false} EmitNone(nodes: seq<Node>, controls: seq<Option<string>>)
    requires |nodes| == |controls|
    requires forall k :: 0 <= k < |controls| ==> controls[k].None?
    ensures Emit(nodes, controls) == nodes
  {
    if nodes != [] {
      EmitNone(nodes[1..], controls[1..]);
    }
  }

  // ---------------------------------------------------------------------
  // The whole sidebar

  /** The pass over the tree under the sidebar. */
  function Collapse(n: Node, hash: Node -> int): (r: Node)
    ensures r.Text? <==> n.Text?
    ensures n.Text? ==> r == n
    ensures n.Elem? ==> r.tag == n.tag
    ensures n.Elem? && n.tag != "li" ==> r.classes == n.classes && r.attrs == n.attrs
  {
    match n
    case Text(_) => n
    case Elem(tag, classes, attrs, kids) =>
      var inner := seq(|kids|, i requires 0 <= i < |kids| => Collapse(kids[i], hash));
      if tag != "li" then Elem(tag, classes, attrs, inner)
      else
        var st := CollapseLevel(classes, attrs, kids, hash);
        Elem(tag, st.classes, st.attrs, Emit(Renamed(inner, st.work), st.controls))
  }

  /** The processed children, each controlled `ul` with its final id. */
  function Renamed(inner: seq<Node>, work: seq<Node>): (r: seq<Node>)
    requires |inner| == |work|
    ensures |r| == |inner|
  {
    seq(|inner|, i requires 0 <= i < |inner| =>
      if IsUl(work[i]) && inner[i].Elem? then inner[i].(attrs := work[i].attrs) else inner[i])
  }

  /** Some `li` at or below `n` holds a link with a `ul` after it. */
  predicate HasBranch(n: Node) {
    n.Elem? &&
    ((n.tag == "li" && exists i :: 0 <= i < |n.children| && Opens(n.children, i))
     || exists i :: 0 <= i < |n.children| && HasBranch(n.children[i]))
  }

  /** A sidebar without such a link is left exactly as it was. */
  lemma {:induction false} CollapseSkips(n: Node, hash: Node -> int)
    requires !HasBranch(n)
    ensures Collapse(n, hash) == n
  {
    if n.Elem? {
      var kids := n.children;
      var r := Collapse(n, hash);
      forall i | 0 <= i < |kids| ensures Collapse(kids[i], hash) == kids[i] {
        CollapseSkips(kids[i], hash);
      }
      var inner := seq(|kids|, i requires 0 <= i < |kids| => Collapse(kids[i], hash));
      assert inner == kids;
      if n.tag == "li" {
        var st := CollapseLevel(n.classes, n.attrs, kids, hash);
        assert LastOpen(kids, |kids|).None?;
        assert forall j :: 0 <= j < |kids| ==> !Targeted(kids, j, |kids|);
        assert st.work == kids;
        assert Renamed(inner, st.work) == kids;
        EmitNone(kids, st.controls);
      }
    }
  }

  /** In a processed `li`, each opening link is directly followed by a
      button whose `aria-controls` is the id its `ul` ends with. */
  lemma {:induction false} ButtonFollowsLink(n: Node, hash: Node -> int, i: nat)
    requires n.Elem? && n.tag == "li" && Opens(n.children, i)
    ensures var st := CollapseLevel(n.classes, n.attrs, n.children, hash);
      var out := Renamed(seq(|n.children|, k requires 0 <= k < |n.children| => Collapse(n.children[k], hash)), st.work);
      var j := NextUl(n.children, i).value;
      && Collapse(n, hash).children ==
           Emit(out[..i], st.controls[..i]) + [Collapse(n.children[i], hash)]
           + [Button(BranchId(n.children[j], hash))]
           + Emit(out[i + 1..], st.controls[i + 1..])
      && "id" in out[j].attrs && out[j].attrs["id"] == BranchId(n.children[j], hash)
  {
    var kids := n.children;
    var st := CollapseLevel(n.classes, n.attrs, kids, hash);
    var inner := seq(|kids|, k requires 0 <= k < |kids| => Collapse(kids[k], hash));
    var out := Renamed(inner, st.work);
    var j := NextUl(kids, i).value;
    EmitAt(out, st.controls, i);
    assert !IsUl(kids[i]);
    assert Targeted(kids, j, |kids|);
    assert st.work[j] == WithId(kids[j], hash);
  }
}
