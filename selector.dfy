/** ExpandableSelector: the widget that turns a list of items into buttons,
    keeps the two lists in step and maps clicks back to items. */
module Selection {
  import opened Common
  import opened Items
  import opened Views
  import opened Animation

  /** The styled attributes that shape the behaviour modelled here. */
  datatype Attributes = Attributes(hideBackgroundIfCollapsed: bool, hideFirstItemOnCollapse: bool)

  /** The geometry the two button layouts give an inflated button. */
  datatype Layouts = Layouts(textButton: Geometry, imageButton: Geometry)

  /** The widget's own background: the drawable it was styled with, or transparent. */
  datatype Background = Transparent | Drawable(handle: int)

  /** What a click on a button does. */
  datatype Reaction = Ignored | ExpandRequested | ItemClicked(index: int, item: Item)

  /** Argument check for a single item. */
  function ValidateExpandableItem(expandableItem: Option<Item>): Outcome
  {
    if expandableItem == None then Failed(ArgumentNull("expandableItem")) else Done
  }

  /** Argument check for the item list. */
  function ValidateExpandableItems(expandableItems: Option<seq<Item>>): Outcome
  {
    if expandableItems == None then Failed(ArgumentNull("expandableItems")) else Done
  }

  /** Shows an item on a button. A background is applied when the item has one.
      A title is shown only on a text button; an item with a title stops there
      on an image button. An image is shown only on an image button, and only
      for an item without a title. Nothing else about the button changes. */
  function ConfigureButtonContent(b: Button, it: Item): (r: Button)
    ensures r.kind == b.kind && r.geometry == b.geometry && r.visibility == b.visibility
    ensures r.translationY == b.translationY && r.onClick == b.onClick
    ensures r.background == if it.HasBackgroundId() then Some(it.backgroundId) else b.background
    ensures r.text == if it.HasTitle() && b.kind == TextButton then it.title else b.text
    ensures r.image == if !it.HasTitle() && it.HasResourceId() && b.kind == ImageButton
                       then Some(it.resourceId) else b.image
  {
    var withBackground := if it.HasBackgroundId() then b.(background := Some(it.backgroundId)) else b;
    if it.HasTitle() && withBackground.kind != TextButton then
      withBackground
    else
      var withText := if it.HasTitle() then withBackground.(text := it.title) else withBackground;
      if it.HasResourceId() && withText.kind == ImageButton then withText.(image := Some(it.resourceId))
      else withText
  }

  /** Inflates the button for the item at `position`: a text button when the
      item has a title, an image button otherwise; visible only for item 0. */
  function InitializeButton(it: Item, position: int, layouts: Layouts): Button
  {
    var kind := if it.HasTitle() then TextButton else ImageButton;
    Button(kind, if kind == TextButton then layouts.textButton else layouts.imageButton,
           if position == 0 then Visible else Invisible, 0, None, None, None, NoHandler)
  }

  /** The button rendered for the item at `position`. */
  function RenderedButton(it: Item, position: int, layouts: Layouts): Button
  {
    ConfigureButtonContent(InitializeButton(it, position, layouts), it)
  }

  /** The buttons rendered for `items`, in reverse item order. */
  function RenderedButtons(items: seq<Item>, layouts: Layouts): (bs: seq<Button>)
    ensures |bs| == |items|
    ensures forall k :: 0 <= k < |bs| ==> bs[k].onClick == NoHandler && bs[k].translationY == 0
  {
    seq(|items|, k requires 0 <= k < |items| => RenderedButton(items[|items| - 1 - k], |items| - 1 - k, layouts))
  }

  /** The handler HookEvents attaches to button `i` of `n`. */
  function HookedHandler(n: int, i: int): ClickHandler
  {
    if i == n - 1 then (if n > 1 then ExpandOrReport(n) else NoHandler)
    else Report(n, i)
  }

  /** A handler only indexes items that exist. */
  predicate FitsItems(h: ClickHandler, items: seq<Item>)
  {
    match h
    case NoHandler => true
    case ExpandOrReport(n) => 1 <= n <= |items|
    case Report(n, position) => 0 <= n - 1 - position < |items|
  }

  /** What a handler does when its button is clicked, as the source has it. */
  function HandlerReaction(h: ClickHandler, collapsed: bool, items: seq<Item>): Reaction
    requires FitsItems(h, items)
  {
    match h
    case NoHandler => Ignored
    case ExpandOrReport(n) => if collapsed then ExpandRequested else ItemClicked(0, items[n - 1])
    case Report(n, position) =>
      var buttonIndex := n - 1 - position;
      ItemClicked(buttonIndex, items[buttonIndex])
  }

  /** The reaction the reverse mapping calls for: the last button, which shows
      item 0, reports item 0. */
  function IntendedReaction(h: ClickHandler, collapsed: bool, items: seq<Item>): Reaction
    requires FitsItems(h, items)
  {
    match h
    case NoHandler => Ignored
    case ExpandOrReport(n) => if collapsed then ExpandRequested else ItemClicked(0, items[0])
    case Report(n, position) =>
      var buttonIndex := n - 1 - position;
      ItemClicked(buttonIndex, items[buttonIndex])
  }

  class Selector {
    var items: seq<Item>
    /** Owns the button list: the selector's `_buttons` and the animator's
        `Buttons` are one list once items are rendered. */
    const animator: Animator
    const layouts: Layouts
    const hideBackgroundIfCollapsed: bool
    const expandedBackground: Background
    var background: Background

    /** Buttons and items correspond one to one, and each button carries the
        handler HookEvents gave it. */
    ghost predicate Valid()
      reads this, animator
    {
      && |animator.buttons| == |items|
      && forall i :: 0 <= i < |items| ==> animator.buttons[i].onClick == HookedHandler(|items|, i)
    }

    /** A new selector has no items, is collapsed and, when it hides its
        background while collapsed, starts transparent. */
    constructor (attributes: Attributes, initialBackground: Background, layouts: Layouts)
      ensures Valid() && fresh(animator)
      ensures items == [] && animator.buttons == [] && animator.isCollapsed
      ensures animator.hideFirstItemOnCollapse == attributes.hideFirstItemOnCollapse
      ensures hideBackgroundIfCollapsed == attributes.hideBackgroundIfCollapsed
      ensures expandedBackground == initialBackground && this.layouts == layouts
      ensures background == if attributes.hideBackgroundIfCollapsed then Transparent else initialBackground
    {
      items := [];
      this.layouts := layouts;
      animator := new Animator();
      hideBackgroundIfCollapsed := attributes.hideBackgroundIfCollapsed;
      expandedBackground := initialBackground;
      background := initialBackground;
      new;
      UpdateBackground();
      animator.hideFirstItemOnCollapse := attributes.hideFirstItemOnCollapse;
    }

    predicate IsCollapsed()
      reads this, animator
    {
      animator.isCollapsed
    }

    predicate IsExpanded()
      reads this, animator
    {
      animator.IsExpanded()
    }

    /** Replaces the items and renders one collapsed button per item; a null
        list is refused and changes nothing. */
    method ShowExpandableItems(expandableItems: Option<seq<Item>>) returns (outcome: Outcome)
      requires Valid()
      modifies this`items, animator`buttons, animator`isCollapsed
      ensures Valid()
      ensures expandableItems == None ==>
        && outcome == Failed(ArgumentNull("expandableItems"))
        && items == old(items) && animator.buttons == old(animator.buttons)
        && animator.isCollapsed == old(animator.isCollapsed)
      ensures expandableItems.Some? ==>
        && outcome == Done && items == expandableItems.value && animator.isCollapsed
        && |animator.buttons| == |items|
        && forall k :: 0 <= k < |items| ==>
             animator.buttons[k] == RenderedButtons(items, layouts)[k].(onClick := HookedHandler(|items|, k))
    {
      outcome := ValidateExpandableItems(expandableItems);
      if outcome.Failed? {
        return;
      }
      Reset();
      items := expandableItems.value;
      RenderExpandableItems();
      HookEvents();
    }

    /** Empties both lists and resets the animator. */
    method Reset()
      modifies this`items, animator`buttons, animator`isCollapsed
      ensures Valid()
      ensures items == [] && animator.buttons == [] && animator.isCollapsed
    {
      items := [];
      animator.Reset();
    }

    /** Creates the buttons from the last item to the first, so that button k
        shows item n-1-k. */
    method RenderExpandableItems()
      requires animator.buttons == []
      modifies animator`buttons
      ensures animator.buttons == RenderedButtons(items, layouts)
    {
      var numberOfItems := |items|;
      var i := numberOfItems - 1;
      while i >= 0
        invariant -1 <= i < numberOfItems
        invariant |animator.buttons| == numberOfItems - 1 - i
        invariant forall k :: 0 <= k < |animator.buttons| ==>
          animator.buttons[k] == RenderedButton(items[numberOfItems - 1 - k], numberOfItems - 1 - k, layouts)
      {
        var button := InitializeButton(items[i], i, layouts);
        // the view is added first and configured afterwards; it is one object
        button := ConfigureButtonContent(button, items[i]);
        animator.buttons := animator.buttons + [button];
        i := i - 1;
      }
    }

    /** Attaches the click handlers: the last button's when there is more than
        one button, then one per other button. */
    method HookEvents()
      requires forall i :: 0 <= i < |animator.buttons| ==> animator.buttons[i].onClick == NoHandler
      modifies animator`buttons
      ensures |animator.buttons| == |old(animator.buttons)|
      ensures forall i :: 0 <= i < |animator.buttons| ==>
        animator.buttons[i] == old(animator.buttons)[i].(onClick := HookedHandler(|animator.buttons|, i))
    {
      var numberOfButtons := |animator.buttons|;
      if numberOfButtons > 1 {
        animator.buttons := animator.buttons[numberOfButtons - 1 :=
          animator.buttons[numberOfButtons - 1].(onClick := ExpandOrReport(numberOfButtons))];
      }
      var i := 0;
      while i < numberOfButtons - 1
        invariant 0 <= i && (i <= numberOfButtons - 1 || i == 0)
        invariant |animator.buttons| == numberOfButtons
        invariant forall k :: 0 <= k < numberOfButtons ==>
          animator.buttons[k] ==
            if k < i || k == numberOfButtons - 1
            then old(animator.buttons)[k].(onClick := HookedHandler(numberOfButtons, k))
            else old(animator.buttons)[k]
      {
        animator.buttons := animator.buttons[i := animator.buttons[i].(onClick := Report(numberOfButtons, i))];
        i := i + 1;
      }
    }

    /** Starts expanding: see Animator.Expand. */
    method Expand() returns (targets: array<int>, containerHeight: int)
      requires Valid()
      modifies animator`isCollapsed, animator`buttons
      ensures Valid() && IsExpanded()
      ensures animator.buttons ==
        WithVisibility(old(animator.buttons), AffectedCount(|old(animator.buttons)|, animator.hideFirstItemOnCollapse), Visible)
      ensures fresh(targets) && targets[..] == ExpandedTargets(old(animator.buttons))
      ensures containerHeight == SumHeight(old(animator.buttons))
    {
      targets, containerHeight := animator.Expand();
    }

    /** Starts collapsing: see Animator.Collapse. */
    method Collapse() returns (targets: array<int>, containerHeight: Result<int>)
      requires Valid()
      modifies animator`isCollapsed
      ensures Valid() && IsCollapsed()
      ensures fresh(targets) && targets.Length == |animator.buttons|
      ensures forall i :: 0 <= i < targets.Length ==> targets[i] == 0
      ensures containerHeight == FirstItemHeight(animator.buttons)
    {
      targets, containerHeight := animator.Collapse();
    }

    /** The item at a position; the list indexer throws outside it. */
    function GetExpandableItem(expandableItemPosition: int): (r: Result<Item>)
      reads this
      ensures r.Ok? <==> 0 <= expandableItemPosition < |items|
      ensures r.Ok? ==> r.value == items[expandableItemPosition]
    {
      if 0 <= expandableItemPosition < |items| then Ok(items[expandableItemPosition])
      else Err(ArgumentOutOfRange)
    }

    /** Puts an item at a position and shows it on that position's button,
        n-1-position. A null item or a position outside the list is refused
        and changes nothing. */
    method UpdateExpandableItem(expandableItemPosition: int, expandableItem: Option<Item>) returns (outcome: Outcome)
      requires Valid()
      modifies this`items, animator`buttons
      ensures Valid()
      ensures expandableItem == None ==>
        outcome == Failed(ArgumentNull("expandableItem")) && items == old(items) && animator.buttons == old(animator.buttons)
      ensures expandableItem.Some? && !(0 <= expandableItemPosition < |old(items)|) ==>
        outcome == Failed(ArgumentOutOfRange) && items == old(items) && animator.buttons == old(animator.buttons)
      ensures expandableItem.Some? && 0 <= expandableItemPosition < |old(items)| ==>
        var buttonPosition := |old(items)| - 1 - expandableItemPosition;
        && outcome == Done
        && items == old(items)[expandableItemPosition := expandableItem.value]
        && animator.buttons == old(animator.buttons)[buttonPosition :=
             ConfigureButtonContent(old(animator.buttons)[buttonPosition], expandableItem.value)]
    {
      outcome := ValidateExpandableItem(expandableItem);
      if outcome.Failed? {
        return;
      }
      if !(0 <= expandableItemPosition < |items|) {
        // RemoveAt throws before the list changes
        return Failed(ArgumentOutOfRange);
      }
      var item := expandableItem.value;
      items := items[..expandableItemPosition] + items[expandableItemPosition + 1..];   // RemoveAt
      items := items[..expandableItemPosition] + [item] + items[expandableItemPosition..];  // Insert
      assert items == old(items)[expandableItemPosition := item];
      var buttonPosition := |animator.buttons| - 1 - expandableItemPosition;
      animator.buttons := animator.buttons[buttonPosition := ConfigureButtonContent(animator.buttons[buttonPosition], item)];
    }

    /** Only when the background is hidden while collapsed: the styled
        background when expanded, transparent when collapsed. */
    method UpdateBackground()
      modifies this`background
      ensures background ==
        if !hideBackgroundIfCollapsed then old(background)
        else if IsExpanded() then expandedBackground
        else Transparent
    {
      if !hideBackgroundIfCollapsed {
        return;
      }
      if IsExpanded() {
        background := expandedBackground;
      } else {
        background := Transparent;
      }
    }

    /** Runs the handler of button i: the last button expands a collapsed
        selector; every other reaction only reports. */
    method Click(i: int) returns (reaction: Reaction)
      requires Valid() && 0 <= i < |animator.buttons|
      modifies animator`isCollapsed, animator`buttons
      ensures Valid()
      ensures FitsItems(old(animator.buttons)[i].onClick, items)
      ensures reaction == HandlerReaction(old(animator.buttons)[i].onClick, old(animator.isCollapsed), items)
      ensures reaction.ExpandRequested? ==>
        && IsExpanded()
        && animator.buttons ==
             WithVisibility(old(animator.buttons), AffectedCount(|old(animator.buttons)|, animator.hideFirstItemOnCollapse), Visible)
      ensures !reaction.ExpandRequested? ==>
        animator.isCollapsed == old(animator.isCollapsed) && animator.buttons == old(animator.buttons)
    {
      reaction := HandlerReaction(animator.buttons[i].onClick, animator.isCollapsed, items);
      if reaction.ExpandRequested? {
        var targets, containerHeight := Expand();
      }
    }
  }

  /** A rendered button shows its item: a text button with the title when the
      item has one, otherwise an image button with the item's image; the
      item's background when it has one; untranslated, and visible only for
      item 0. */
  lemma RenderedButtonShowsItem(it: Item, position: int, layouts: Layouts)
    ensures var b := RenderedButton(it, position, layouts);
      && (b.kind == TextButton <==> it.HasTitle())
      && (it.HasTitle() ==> b.text == it.title && b.image == None)
      && (!it.HasTitle() ==> b.text == None && b.image == (if it.HasResourceId() then Some(it.resourceId) else None))
      && (b.background == if it.HasBackgroundId() then Some(it.backgroundId) else None)
      && (b.visibility == Visible <==> position == 0)
      && b.translationY == 0 && b.onClick == NoHandler
  {
  }

  /** After rendering, only the button for item 0, the last one, is visible. */
  lemma OnlyFirstItemStartsVisible(items: seq<Item>, layouts: Layouts, k: int)
    requires 0 <= k < |items|
    ensures RenderedButtons(items, layouts)[k].visibility == Visible <==> k == |items| - 1
  {
    var position := |items| - 1 - k;
    assert RenderedButtons(items, layouts)[k] == RenderedButton(items[position], position, layouts);
    RenderedButtonShowsItem(items[position], position, layouts);
  }

  /** Clicking any button but the last reports the index of the item that
      button shows, with that item. */
  lemma ClickReportsShownItem(items: seq<Item>, layouts: Layouts, i: int, collapsed: bool)
    requires 0 <= i < |items| - 1
    ensures FitsItems(HookedHandler(|items|, i), items)
    ensures HandlerReaction(HookedHandler(|items|, i), collapsed, items)
      == ItemClicked(|items| - 1 - i, items[|items| - 1 - i])
    ensures RenderedButtons(items, layouts)[i] == RenderedButton(items[|items| - 1 - i], |items| - 1 - i, layouts)
  {
  }

  /** The last button: with one button it has no handler at all; with more it
      expands a collapsed selector and otherwise reports index 0 paired with
      the last item. */
  lemma LastButtonReaction(items: seq<Item>, collapsed: bool)
    requires items != []
    ensures var n := |items|; FitsItems(HookedHandler(n, n - 1), items)
    ensures var n := |items|; var r := HandlerReaction(HookedHandler(n, n - 1), collapsed, items);
      && (n == 1 ==> r == Ignored)
      && (n > 1 ==> r == if collapsed then ExpandRequested else ItemClicked(0, items[n - 1]))
  {
  }

  /** As written, an expanded selector whose first and last items differ
      reports, for a click on the button showing item 0, an item that is not
      the one at the reported index. */
  lemma LastButtonReportsWrongItem(items: seq<Item>, layouts: Layouts)
    requires |items| > 1 && items[0] != items[|items| - 1]
    ensures var n := |items|; FitsItems(HookedHandler(n, n - 1), items)
    ensures var n := |items|; var r := HandlerReaction(HookedHandler(n, n - 1), false, items);
      && r.ItemClicked? && r.index == 0
      && r.item != items[r.index]
      && RenderedButtons(items, layouts)[n - 1] == RenderedButton(items[0], 0, layouts)
  {
  }

  /** A concrete instance: two items with different titles. */
  lemma TwoItemsWitness()
    ensures var items := [WithTitle(Some("a")), WithTitle(Some("b"))];
      && FitsItems(HookedHandler(2, 1), items)
      && HandlerReaction(HookedHandler(2, 1), false, items) == ItemClicked(0, WithTitle(Some("b")))
      && WithTitle(Some("b")) != items[0]
  {
  }

  /** With the intended reaction every report is consistent: the index is the
      item shown on the clicked button and the item is the one at that index;
      only the last button of a collapsed selector with several buttons
      expands, and only a lone button is ignored. */
  lemma IntendedClickReportsShownItem(items: seq<Item>, i: int, collapsed: bool)
    requires 0 <= i < |items|
    ensures FitsItems(HookedHandler(|items|, i), items)
    ensures var n := |items|; var r := IntendedReaction(HookedHandler(n, i), collapsed, items);
      && (r.ItemClicked? ==> r.index == n - 1 - i && r.item == items[r.index])
      && (r.Ignored? <==> n == 1)
      && (r.ExpandRequested? <==> (i == n - 1 && n > 1 && collapsed))
  {
  }
}
