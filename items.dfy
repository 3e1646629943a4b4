/** ExpandableItem: the title, icon and background one button of the selector shows. */
module Items {
  import opened Common

  /** The sentinel meaning "no drawable". */
  const NO_ID: int := -1

  /** A display record. A `None` title is a null string. */
  datatype Item = Item(title: Option<string>, resourceId: int, backgroundId: int)
  {
    predicate HasResourceId() { resourceId != NO_ID }

    predicate HasBackgroundId() { backgroundId != NO_ID }

    /** `!string.IsNullOrEmpty(Title)` */
    predicate HasTitle() { title.Some? && title.value != "" }
  }

  /** The private two-argument constructor. It never assigns the resource id,
      which therefore keeps the C# default of 0. */
  function Make(backgroundId: int, title: Option<string>): Item
  {
    Item(title, 0, backgroundId)
  }

  /** `new ExpandableItem()` */
  function Blank(): Item { Make(NO_ID, None) }

  /** `new ExpandableItem(int backgroundId)` */
  function WithBackground(backgroundId: int): Item { Make(backgroundId, None) }

  /** `new ExpandableItem(string title)`; the title may itself be null. */
  function WithTitle(title: Option<string>): Item { Make(NO_ID, title) }

  /** The default item has no background and no title. */
  lemma BlankHasNothing()
    ensures Blank().backgroundId == NO_ID && Blank().title == None
    ensures !Blank().HasBackgroundId() && !Blank().HasTitle()
  {
  }

  /** The background constructor stores its argument and leaves the title null. */
  lemma WithBackgroundStoresIt(b: int)
    ensures WithBackground(b).backgroundId == b && WithBackground(b).title == None
    ensures WithBackground(b).HasBackgroundId() <==> b != NO_ID
    ensures !WithBackground(b).HasTitle()
  {
  }

  /** The title constructor stores its argument and has no background; the
      item has a title exactly when that string is neither null nor empty. */
  lemma WithTitleStoresIt(t: Option<string>)
    ensures WithTitle(t).title == t && WithTitle(t).backgroundId == NO_ID
    ensures !WithTitle(t).HasBackgroundId()
    ensures WithTitle(t).HasTitle() <==> (t.Some? && |t.value| > 0)
  {
  }

  /** No constructor assigns the resource id: every freshly built item has
      resource id 0 and so reports that it has one. */
  lemma FreshItemsHaveResourceId(b: int, t: Option<string>)
    ensures Blank().resourceId == 0 && Blank().HasResourceId()
    ensures WithBackground(b).resourceId == 0 && WithBackground(b).HasResourceId()
    ensures WithTitle(t).resourceId == 0 && WithTitle(t).HasResourceId()
  {
  }
}
