// The sidebar: the fixed list of navigation items, which of them are
// disabled, and what a click on an item or on the logo does to the view.

module Sidebar {
  import opened Types

  datatype NavItem = NavItem(id: AppView, caption: string, disabled: bool)

  /** The views whose screen shows the generated study material. */
  predicate NeedsNotes(v: AppView) {
    v == NOTES || v == FLASHCARDS || v == QUIZ
  }

  /** The navigation items, in display order. */
  function NavItems(hasNotes: bool): (items: seq<NavItem>)
    ensures |items| == 5
    ensures items[0].id == HOME && items[1].id == UPLOAD && items[2].id == NOTES
    ensures items[3].id == FLASHCARDS && items[4].id == QUIZ
    ensures forall i :: 0 <= i < |items| ==> (items[i].disabled <==> NeedsNotes(items[i].id) && !hasNotes)
  {
    [ NavItem(HOME, "Dashboard", false),
      NavItem(UPLOAD, "Upload & Source", false),
      NavItem(NOTES, "AI Notes", !hasNotes),
      NavItem(FLASHCARDS, "Flashcards", !hasNotes),
      NavItem(QUIZ, "Quiz", !hasNotes) ]
  }

  /** Every view has exactly one item. */
  lemma OneItemPerView(hasNotes: bool, v: AppView)
    ensures exists i :: 0 <= i < 5 && NavItems(hasNotes)[i].id == v
    ensures forall i, j :: 0 <= i < j < 5 ==> NavItems(hasNotes)[i].id != NavItems(hasNotes)[j].id
  {
    var items := NavItems(hasNotes);
    match v
    case HOME => assert items[0].id == v;
    case UPLOAD => assert items[1].id == v;
    case NOTES => assert items[2].id == v;
    case FLASHCARDS => assert items[3].id == v;
    case QUIZ => assert items[4].id == v;
  }

  /** The item for view `v`. */
  function ItemFor(v: AppView, hasNotes: bool): (item: NavItem)
    ensures item in NavItems(hasNotes) && item.id == v
  {
    var items := NavItems(hasNotes);
    match v
    case HOME => items[0]
    case UPLOAD => items[1]
    case NOTES => items[2]
    case FLASHCARDS => items[3]
    case QUIZ => items[4]
  }

  /** The view after clicking `item`: a disabled item does nothing. */
  function AfterItemClick(current: AppView, item: NavItem): (v: AppView)
    ensures !item.disabled ==> v == item.id
    ensures item.disabled ==> v == current
  {
    if !item.disabled then item.id else current
  }

  /** The view after clicking the logo, whatever notes exist: the dashboard,
      which never needs notes. */
  function AfterLogoClick(current: AppView): (v: AppView)
    ensures v == HOME && !NeedsNotes(v)
  {
    HOME
  }

  /** HOME and UPLOAD are always reachable; the study screens exactly when
      notes exist; otherwise a click leaves the view alone. */
  lemma ClickGating(current: AppView, target: AppView, hasNotes: bool)
    ensures (target == HOME || target == UPLOAD) ==> AfterItemClick(current, ItemFor(target, hasNotes)) == target
    ensures NeedsNotes(target) ==>
              AfterItemClick(current, ItemFor(target, hasNotes)) == (if hasNotes then target else current)
  {
  }

  /** Clicking never moves to a study screen without notes: if the current
      view respects that rule, so does the next one. */
  lemma ClickKeepsNotesRule(current: AppView, target: AppView, hasNotes: bool)
    requires NeedsNotes(current) ==> hasNotes
    ensures var v := AfterItemClick(current, ItemFor(target, hasNotes)); NeedsNotes(v) ==> hasNotes
    ensures NeedsNotes(AfterLogoClick(current)) ==> hasNotes
  {
  }
}
