/** The left-sidebar accordion of theme/base/static/theme.js
    (`initLeftSidebarAccordion`).

    A sidebar is the sequence, in document order, of its `li.has-children`
    branches; each branch's `aria-expanded` is the `expanded` flag. The
    script's `collapseOthers` queries the WHOLE sidebar, so opening a
    branch closes every other branch, its own ancestors included. */
module Accordion {
  import opened Strings

  datatype Branch = Branch(
    expanded: bool,      // aria-expanded="true"
    wired: bool,         // has a direct `ul` and an anchor (`> a` or `> p > a`), so init handled it
    liCurrent: bool,     // the li itself has class "current"
    anchorCurrent: bool, // its anchor has class "current"
    listCurrent: bool,   // an element inside its direct `ul` has class "current"
    otherCurrent: bool)  // another descendant (outside anchor and `ul`) has class "current"

  type Sidebar = seq<Branch>

  /** `branchIsCurrent` of the init loop. */
  predicate IsCurrentBranch(b: Branch) {
    b.liCurrent || b.anchorCurrent || b.listCurrent
  }

  /** `li.querySelector(':scope .current')` of the dedupe step: a
      descendant, never the li itself. */
  predicate ContainsCurrent(b: Branch) {
    b.anchorCurrent || b.listCurrent || b.otherCurrent
  }

  function SetExpanded(s: Sidebar, i: nat, e: bool): (r: Sidebar)
    requires i < |s|
    ensures |r| == |s| && r[i].expanded == e
    ensures forall j :: 0 <= j < |s| && j != i ==> r[j] == s[j]
  {
    s[i := s[i].(expanded := e)]
  }

  /** Only the `expanded` flags differ. */
  predicate SameBranches(s: Sidebar, r: Sidebar) {
    |r| == |s| && forall j :: 0 <= j < |s| ==> r[j].(expanded := false) == s[j].(expanded := false)
  }

  /** `collapseOthers(except)`: every expanded branch but `except` closes. */
  function CollapseOthers(s: Sidebar, except: nat): (r: Sidebar)
    requires except < |s|
    ensures SameBranches(s, r)
    ensures forall j :: 0 <= j < |s| ==> (r[j].expanded <==> j == except && s[j].expanded)
  {
    seq(|s|, j requires 0 <= j < |s| => if j == except then s[j] else s[j].(expanded := false))
  }

  /** `toggle(li)`. */
  function Toggle(s: Sidebar, i: nat): (r: Sidebar)
    requires i < |s|
    ensures SameBranches(s, r)
    // Opening leaves the branch the only open one in the whole sidebar.
    ensures !s[i].expanded ==> forall j :: 0 <= j < |s| ==> (r[j].expanded <==> j == i)
    // Closing touches that branch alone.
    ensures s[i].expanded ==> !r[i].expanded && forall j :: 0 <= j < |s| && j != i ==> r[j] == s[j]
  {
    if s[i].expanded then SetExpanded(s, i, false)
    else SetExpanded(CollapseOthers(s, i), i, true)
  }

  /** Collapse-others followed by expand (ArrowRight, a real link click). */
  function Expand(s: Sidebar, i: nat): (r: Sidebar)
    requires i < |s|
    ensures SameBranches(s, r)
    ensures forall j :: 0 <= j < |s| ==> (r[j].expanded <==> j == i)
  {
    SetExpanded(CollapseOthers(s, i), i, true)
  }

  datatype Key = Enter | Space | ArrowRight | ArrowLeft | OtherKey

  datatype Event =
    | ToggleButton          // click on the branch's `button.nav-toggle`
    | AnchorClick(href: string) // click on the branch's anchor; `href` empty when absent
    | AnchorKey(key: Key)   // keydown on the branch's anchor

  datatype Effect = NoEffect | NavigateLater(href: string)

  /** The anchor navigates (after one themed-duration tick) rather than toggling. */
  predicate IsNavigation(href: string) {
    href != [] && !StartsWith(href, "#")
  }

  /** One event on branch `i`: the new sidebar and any deferred navigation.
      The anchor listeners exist only on wired branches; the toggle button
      is also reached through the sidebar's click delegation, so it works
      on every branch. */
  function Handle(s: Sidebar, i: nat, ev: Event): (r: (Sidebar, Effect))
    requires i < |s|
    ensures ev == ToggleButton ==> r == (Toggle(s, i), NoEffect)
    // An anchor event on a branch the init loop skipped has no listener.
    ensures !s[i].wired && !ev.ToggleButton? ==> r == (s, NoEffect)
    ensures s[i].wired && (ev == AnchorKey(Enter) || ev == AnchorKey(Space)) ==>
      r == (Toggle(s, i), NoEffect)
    ensures s[i].wired && ev == AnchorKey(ArrowRight) ==> r == (Expand(s, i), NoEffect)
    ensures s[i].wired && ev == AnchorKey(ArrowLeft) ==> r == (SetExpanded(s, i, false), NoEffect)
    ensures ev == AnchorKey(OtherKey) ==> r == (s, NoEffect)
    ensures s[i].wired && ev.AnchorClick? && IsNavigation(ev.href) ==>
      r == (Expand(s, i), NavigateLater(ev.href))
    ensures s[i].wired && ev.AnchorClick? && !IsNavigation(ev.href) ==> r == (Toggle(s, i), NoEffect)
  {
    match ev
    case ToggleButton => (Toggle(s, i), NoEffect)
    case AnchorClick(href) =>
      if !s[i].wired then (s, NoEffect)
      else if href != [] && !StartsWith(href, "#") then (Expand(s, i), NavigateLater(href))
      else (Toggle(s, i), NoEffect)
    case AnchorKey(key) =>
      if !s[i].wired then (s, NoEffect)
      else
        match key
        case Enter => (Toggle(s, i), NoEffect)
        case Space => (Toggle(s, i), NoEffect)
        case ArrowRight => (Expand(s, i), NoEffect)
        case ArrowLeft => (SetExpanded(s, i, false), NoEffect)
        case OtherKey => (s, NoEffect)
  }

  /** An unwired branch ignores a keypress on its anchor: the init loop's
      `continue` comes before the listeners are attached. */
  lemma {:induction false} UnwiredAnchorIgnored(s: Sidebar, i: nat, k: Key)
    requires i < |s| && !s[i].wired
    ensures Handle(s, i, AnchorKey(k)) == (s, NoEffect)
    ensures Handle(s, i, AnchorClick("page.html")) == (s, NoEffect)
  {
  }

  function CountExpanded(s: Sidebar): (n: nat)
    ensures n <= |s|
    ensures n == 0 <==> forall j :: 0 <= j < |s| ==> !s[j].expanded
  {
    if s == [] then 0
    else
      assert forall j :: 1 <= j < |s| ==> s[1..][j - 1] == s[j];
      (if s[0].expanded then 1 else 0) + CountExpanded(s[1..])
  }

  predicate AtMostOneExpanded(s: Sidebar) {
    forall j, k :: 0 <= j < |s| && 0 <= k < |s| && s[j].expanded && s[k].expanded ==> j == k
  }

  /** No event ever leaves two branches open when at most one was. */
  lemma {:induction false} HandleKeepsAtMostOne(s: Sidebar, i: nat, ev: Event)
    requires i < |s| && AtMostOneExpanded(s)
    ensures AtMostOneExpanded(Handle(s, i, ev).0)
  {
  }

  /** Toggling twice: a closed branch ends closed and so does everything
      else; an open branch ends as the only open one. */
  lemma {:induction false} ToggleTwice(s: Sidebar, i: nat)
    requires i < |s|
    ensures !s[i].expanded ==> CountExpanded(Toggle(Toggle(s, i), i)) == 0
    ensures s[i].expanded ==> forall j :: 0 <= j < |s| ==> (Toggle(Toggle(s, i), i)[j].expanded <==> j == i)
  {
  }

  // ---------------------------------------------------------------------
  // Initialisation

  /** The synchronous init pass: every wired branch is set collapsed. */
  function InitPass(s: Sidebar): (r: Sidebar)
    ensures SameBranches(s, r)
    ensures forall j :: 0 <= j < |s| ==> r[j].expanded == (s[j].expanded && !s[j].wired)
  {
    seq(|s|, j requires 0 <= j < |s| => if s[j].wired then s[j].(expanded := false) else s[j])
  }

  /** The first expanded branch, and the first expanded one containing a
      current element (`Array.from(expanded).find(...)`). */
  function FirstExpanded(s: Sidebar, needCurrent: bool): (k: nat)
    ensures k <= |s|
    ensures k < |s| ==> s[k].expanded && (needCurrent ==> ContainsCurrent(s[k]))
    ensures forall j :: 0 <= j < k ==> !(s[j].expanded && (needCurrent ==> ContainsCurrent(s[j])))
  {
    if s == [] then 0
    else if s[0].expanded && (needCurrent ==> ContainsCurrent(s[0])) then 0
    else 1 + FirstExpanded(s[1..], needCurrent)
  }

  /** The dedupe step: with more than one branch open, only the first one
      containing `.current` (or else the first one) stays open. */
  function Dedupe(s: Sidebar): (r: Sidebar)
    ensures SameBranches(s, r)
    ensures CountExpanded(s) <= 1 ==> r == s
    ensures CountExpanded(s) > 1 ==> exists k :: KeptBranch(s, r, k)
  {
    if CountExpanded(s) > 1 then
      var withCurrent := FirstExpanded(s, true);
      var keep := if withCurrent < |s| then withCurrent else FirstExpanded(s, false);
      assert keep < |s| by {
        if withCurrent == |s| {
          var j :| 0 <= j < |s| && s[j].expanded;
        }
      }
      var r := CollapseOthers(s, keep);
      assert KeptBranch(s, r, keep);
      r
    else s
  }

  /** `k` is the branch the dedupe keeps and it is the only one open. */
  ghost predicate KeptBranch(s: Sidebar, r: Sidebar, k: nat) {
    && k < |s| && |r| == |s|
    && s[k].expanded
    && (forall j :: 0 <= j < |s| ==> (r[j].expanded <==> j == k))
    && (if exists j :: 0 <= j < |s| && s[j].expanded && ContainsCurrent(s[j])
        then ContainsCurrent(s[k]) && forall j :: 0 <= j < k && s[j].expanded ==> !ContainsCurrent(s[j])
        else forall j :: 0 <= j < k ==> !s[j].expanded)
  }

  /** The next animation frame: each wired current branch opens. */
  function NextFrame(s: Sidebar, wiredBefore: Sidebar): (r: Sidebar)
    requires |wiredBefore| == |s|
    ensures SameBranches(s, r)
    ensures forall j :: 0 <= j < |s| ==>
      r[j].expanded == (s[j].expanded || (wiredBefore[j].wired && IsCurrentBranch(wiredBefore[j])))
  {
    seq(|s|, j requires 0 <= j < |s| =>
      if wiredBefore[j].wired && IsCurrentBranch(wiredBefore[j]) then s[j].(expanded := true) else s[j])
  }

  /** The sidebar right after init and after the following frame. */
  function Init(s: Sidebar): (r: (Sidebar, Sidebar))
    ensures SameBranches(s, r.0) && SameBranches(s, r.1)
    // After the synchronous part no wired branch is open ...
    ensures forall j :: 0 <= j < |s| && s[j].wired ==> !r.0[j].expanded
    // ... and at most one branch is open at all.
    ensures CountExpanded(r.0) <= 1
    // A frame later the wired current branches are open as well.
    ensures forall j :: 0 <= j < |s| ==>
      (r.1[j].expanded <==> r.0[j].expanded || (s[j].wired && IsCurrentBranch(s[j])))
  {
    var sync := InitPass(s);
    var deduped := Dedupe(sync);
    OneAfterDedupe(sync, deduped);
    (deduped, NextFrame(deduped, s))
  }

  lemma {:induction false} OneAfterDedupe(s: Sidebar, r: Sidebar)
    requires r == Dedupe(s)
    ensures CountExpanded(r) <= 1
  {
    if CountExpanded(s) > 1 {
      var k :| KeptBranch(s, r, k);
      CountOnlyOne(r, k);
    }
  }

  lemma {:induction false} CountOnlyOne(s: Sidebar, k: nat)
    requires k < |s|
    requires forall j :: 0 <= j < |s| ==> (s[j].expanded <==> j == k)
    ensures CountExpanded(s) == 1
  {
    if k == 0 {
      assert CountExpanded(s[1..]) == 0;
    } else {
      CountOnlyOne(s[1..], k - 1);
    }
  }

  /** A server-rendered sidebar whose unwired branches are all closed comes
      out of the synchronous pass fully collapsed, so the dedupe does nothing. */
  lemma {:induction false} DedupeIdleWhenUnwiredClosed(s: Sidebar)
    requires forall j :: 0 <= j < |s| && !s[j].wired ==> !s[j].expanded
    ensures CountExpanded(Init(s).0) == 0
  {
  }
}
