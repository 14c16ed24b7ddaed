/** The mobile sidebar drawer of theme/base/static/theme.js
    (`initMobileSidebar`): two body classes and the last seen viewport
    width. */
module Drawer {

  const DESKTOP_BREAKPOINT_PX: int := 1024

  datatype Drawer = Drawer(
    sidebarOpen: bool, // body has `site-body--sidebar-open`
    locked: bool,      // body has `site-body--locked`
    lastWidth: int)    // `lastW`

  function Open(d: Drawer): (r: Drawer)
    ensures r.sidebarOpen && r.locked && r.lastWidth == d.lastWidth
  {
    d.(sidebarOpen := true, locked := true)
  }

  function Close(d: Drawer): (r: Drawer)
    ensures !r.sidebarOpen && !r.locked && r.lastWidth == d.lastWidth
  {
    d.(sidebarOpen := false, locked := false)
  }

  /** The toggle looks at the open class only, never at the lock. */
  function Toggle(d: Drawer): (r: Drawer)
    ensures d.sidebarOpen ==> r == Close(d)
    ensures !d.sidebarOpen ==> r == Open(d)
  {
    if d.sidebarOpen then Close(d) else Open(d)
  }

  datatype Event =
    | ToggleClick              // a `[data-sidebar-toggle]` button
    | CloserClick              // a `[data-sidebar-close]` button
    | BackdropClick
    | KeyDown(key: string)     // any keydown on the document
    | SidebarClick(onLink: bool) // any other click in the sidebar; `onLink` when inside an `a`
    | BranchClick              // a click on an accordion branch's own link or button
    | Resize(width: int)       // `window.innerWidth` after the resize

  function Step(d: Drawer, e: Event): (r: Drawer)
    ensures e == ToggleClick ==> r == Toggle(d)
    ensures e == CloserClick || e == BackdropClick || e == KeyDown("Escape") || e == SidebarClick(true) ==>
      r == Close(d)
    ensures (e.KeyDown? && e.key != "Escape") || e == SidebarClick(false) ==> r == d
    // The accordion's handler stops the click before the sidebar sees it,
    // so a branch link leaves the drawer open.
    ensures e == BranchClick ==> r == d
    // A resize closes only when the width changed and reached the breakpoint.
    ensures e.Resize? ==> r.lastWidth == e.width
    ensures e.Resize? && e.width != d.lastWidth && e.width >= DESKTOP_BREAKPOINT_PX ==>
      r == Close(d).(lastWidth := e.width)
    ensures e.Resize? && (e.width == d.lastWidth || e.width < DESKTOP_BREAKPOINT_PX) ==> r == d.(lastWidth := e.width)
  {
    match e
    case ToggleClick => Toggle(d)
    case CloserClick => Close(d)
    case BackdropClick => Close(d)
    case KeyDown(key) => if key == "Escape" then Close(d) else d
    case SidebarClick(onLink) => if onLink then Close(d) else d
    case BranchClick => d
    case Resize(w) =>
      if w != d.lastWidth then
        var closed := if w >= DESKTOP_BREAKPOINT_PX then Close(d) else d;
        closed.(lastWidth := w)
      else d
  }

  /** The lock follows the open class. */
  predicate Consistent(d: Drawer) {
    d.sidebarOpen == d.locked
  }

  /** Every event keeps the two classes in step. */
  lemma {:induction false} StepKeepsConsistent(d: Drawer, e: Event)
    requires Consistent(d)
    ensures Consistent(Step(d, e))
  {
  }

  /** Closing is idempotent, and opening then closing is just closing. */
  lemma {:induction false} CloseIdempotent(d: Drawer)
    ensures Close(Close(d)) == Close(d)
    ensures Close(Open(d)) == Close(d)
    ensures Toggle(Toggle(d)) == (if d.sidebarOpen then Open(d) else Close(d))
  {
  }

  /** Any sequence of events applied in turn. */
  function Run(d: Drawer, es: seq<Event>): Drawer
    decreases |es|
  {
    if es == [] then d else Run(Step(d, es[0]), es[1..])
  }

  /** Starting consistent, the drawer stays consistent forever. */
  lemma {:induction false} RunKeepsConsistent(d: Drawer, es: seq<Event>)
    requires Consistent(d)
    ensures Consistent(Run(d, es))
    decreases |es|
  {
    if es != [] {
      StepKeepsConsistent(d, es[0]);
      RunKeepsConsistent(Step(d, es[0]), es[1..]);
    }
  }

  /** After a resize to a desktop width the drawer is closed, unless the
      width had not changed. */
  lemma {:induction false} DesktopResizeCloses(d: Drawer, w: int)
    requires w >= DESKTOP_BREAKPOINT_PX && w != d.lastWidth
    ensures !Step(d, Resize(w)).sidebarOpen && !Step(d, Resize(w)).locked
  {
  }
}
