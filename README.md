# Expandable selector, modelled in Dafny

The expandable selector is an Android widget that stacks a list of buttons into one visible
control and animates them into a vertical fan of separately clickable buttons. This project
models the integer and list logic at its core:

- `ExpandableItem` (module `Items`, `items.dfy`): the display record with the `NO_ID` sentinel,
  its three constructors and the `HasTitle` / `HasBackgroundId` / `HasResourceId` predicates.
- `ExpandableSelectorAnimator` (module `Animation`, `animator.dfy`): the collapsed/expanded flag;
  the target translation of each button when expanded (a negative running sum of the footprints
  of the buttons after it); the container's expanded height (all footprints) and collapsed height
  (the first button's vertical size); and the rule that decides which buttons change visibility.
  Pure computations are functions with lemmas. The class `Animator` holds the fields the source
  updates. Its loops are methods proved against those functions.
- `ExpandableSelector` (module `Selection`, `selector.dfy`): the class `Selector`. It keeps the
  item list and the button list in step. Buttons are created in reverse item order, so button `k`
  shows item `n-1-k`, and only item 0 starts visible. `UpdateExpandableItem` replaces one item and
  reconfigures its button. Click handlers map buttons back to items. Null arguments are rejected.
- `views.dfy` (module `Views`) abstracts an Android view as a `Button` record: a layout kind (text or
  image), a height and four margins, a visibility, a translation, the background, text and image
  it shows, and its click handler. `common.dfy` holds `Option`, `Result`, `Outcome` and the two
  exceptions the model produces: argument-null, which the widget's own checks throw, and
  out-of-range, which `List<T>` indexing and `RemoveAt` throw.

Once items are rendered, the selector's `_buttons` list and the animator's `Buttons` property are
one list object. The model stores that list once, in `Animator.buttons`, and the selector edits it
there. An animation is represented by its targets. `Expand` and `Collapse` return one target
translation per button (the array the source fills in a loop) and the container's target height.
`SettleButtons` is the state once every button animator has finished. `ChangeButtonsVisibility` is
what the container animation's end delegate runs.

Button heights and margins come from the host layout. The model takes them as the `Layouts` given to
the selector, one geometry per button layout.

Where the two disagree, the model follows the code rather than the prose description of the widget:
- Expanding does not touch every button's visibility. Unless the first item is hidden on collapse,
  the last button is left as it is; it is already visible from rendering.
- The expanded footprint of a button uses its left and right margins, while the collapsed height
  uses the first button's top and bottom margins. `Animation.SingleButtonHeights` states when the
  two agree.

## Model

| member | source | states |
|---|---|---|
| `Items.BlankHasNothing` | src/Xamarin.Android.ExpandableSelector/Xamarin.Android.ExpandableSelector/ExpandableItem.cs:16-35 | the default item has background `NO_ID` and a null title, so it has neither a background nor a title |
| `Items.WithBackgroundStoresIt` | src/Xamarin.Android.ExpandableSelector/Xamarin.Android.ExpandableSelector/ExpandableItem.cs:21-45 | the background constructor stores its argument with a null title; the item has a background exactly when the argument is not `NO_ID` |
| `Items.WithTitleStoresIt` | src/Xamarin.Android.ExpandableSelector/Xamarin.Android.ExpandableSelector/ExpandableItem.cs:26-50 | the title constructor stores its argument with background `NO_ID`; the item has a title exactly when the string is non-null and non-empty |
| `Items.FreshItemsHaveResourceId` | src/Xamarin.Android.ExpandableSelector/Xamarin.Android.ExpandableSelector/ExpandableItem.cs:13-40 | no constructor assigns the resource id, so it stays 0 and every freshly built item reports having one |
| `Animation.Animator.constructor` | src/Xamarin.Android.ExpandableSelector/Xamarin.Android.ExpandableSelector/Animation/ExpandableSelectorAnimator.cs:22-53 | a new animator is collapsed, and `IsExpanded` is the negation of the flag |
| `Animation.Animator.Expand` | src/Xamarin.Android.ExpandableSelector/Xamarin.Android.ExpandableSelector/Animation/ExpandableSelectorAnimator.cs:63-69 | leaves the animator expanded; makes the affected buttons visible before computing anything; returns the expanded targets and the total footprint of the original buttons |
| `Animation.Animator.Collapse` | src/Xamarin.Android.ExpandableSelector/Xamarin.Android.ExpandableSelector/Animation/ExpandableSelectorAnimator.cs:78-84 | leaves the animator collapsed and the buttons untouched; every target is 0; the container height is the first button's vertical size and an error when there is no button |
| `Animation.Animator.Reset` | src/Xamarin.Android.ExpandableSelector/Xamarin.Android.ExpandableSelector/Animation/ExpandableSelectorAnimator.cs:100-104 | leaves no buttons and the animator collapsed, keeping the hide-first-item setting |
| `Animation.Animator.ExpandButtons` | src/Xamarin.Android.ExpandableSelector/Xamarin.Android.ExpandableSelector/Animation/ExpandableSelectorAnimator.cs:106-118 | fills a fresh array with button i's expanded target at index i |
| `Animation.Animator.CollapseButtons` | src/Xamarin.Android.ExpandableSelector/Xamarin.Android.ExpandableSelector/Animation/ExpandableSelectorAnimator.cs:120-132 | fills a fresh array, one entry per button, with translation 0 |
| `Animation.Animator.CalculateExpandedYPosition` | src/Xamarin.Android.ExpandableSelector/Xamarin.Android.ExpandableSelector/Animation/ExpandableSelectorAnimator.cs:196-206 | the downward loop yields minus the sum of `Height + RightMargin + LeftMargin` over the buttons after the given one |
| `Animation.Animator.ChangeButtonsVisibility` | src/Xamarin.Android.ExpandableSelector/Xamarin.Android.ExpandableSelector/Animation/ExpandableSelectorAnimator.cs:208-218 | sets buttons `[0, n-1)` to the given visibility, or `[0, n)` when the first item is hidden on collapse; nothing else changes |
| `Animation.Animator.SettleButtons` | src/Xamarin.Android.ExpandableSelector/Xamarin.Android.ExpandableSelector/Animation/ExpandableSelectorAnimator.cs:166-174 | once the animators end, each button's translation is its target and nothing else about it has changed |
| `Animation.SumHeightNonNegative` | src/Xamarin.Android.ExpandableSelector/Xamarin.Android.ExpandableSelector/Animation/ExpandableSelectorAnimator.cs:250-253 | with non-negative heights and margins the expanded container height is non-negative |
| `Animation.SumHeightAppend` | src/Xamarin.Android.ExpandableSelector/Xamarin.Android.ExpandableSelector/Animation/ExpandableSelectorAnimator.cs:250-253 | the total footprint of two runs of buttons is the sum of their totals |
| `Animation.TargetsDependOnGeometryOnly` | src/Xamarin.Android.ExpandableSelector/Xamarin.Android.ExpandableSelector/Animation/ExpandableSelectorAnimator.cs:63-69 | targets and both container heights depend only on heights and margins, so making buttons visible first does not move any target |
| `Animation.WithVisibilityKeepsGeometry` | src/Xamarin.Android.ExpandableSelector/Xamarin.Android.ExpandableSelector/Animation/ExpandableSelectorAnimator.cs:208-218 | changing visibility keeps every button's geometry and click handler |
| `Animation.WithVisibilityIdempotent` | src/Xamarin.Android.ExpandableSelector/Xamarin.Android.ExpandableSelector/Animation/ExpandableSelectorAnimator.cs:208-218 | setting the same visibility twice equals setting it once |
| `Animation.VisibilityOfLastButton` | src/Xamarin.Android.ExpandableSelector/Xamarin.Android.ExpandableSelector/Animation/ExpandableSelectorAnimator.cs:208-218 | all buttons but the last get the visibility; the last one gets it exactly when the first item is hidden on collapse, and is otherwise unchanged |
| `Animation.ExpandedTargetStep` | src/Xamarin.Android.ExpandableSelector/Xamarin.Android.ExpandableSelector/Animation/ExpandableSelectorAnimator.cs:196-206 | the last button's target is 0, and `y_i = y_{i+1} - footprint_{i+1}` |
| `Animation.ExpandedTargetsDescend` | src/Xamarin.Android.ExpandableSelector/Xamarin.Android.ExpandableSelector/Animation/ExpandableSelectorAnimator.cs:196-206 | with non-negative geometry, `i <= j` implies `y_i <= y_j <= 0` |
| `Animation.ExpandedHeightFromFirstTarget` | src/Xamarin.Android.ExpandableSelector/Xamarin.Android.ExpandableSelector/Animation/ExpandableSelectorAnimator.cs:250-253 | the expanded container height is `-y_0` plus the first button's footprint |
| `Animation.SingleButtonHeights` | src/Xamarin.Android.ExpandableSelector/Xamarin.Android.ExpandableSelector/Animation/ExpandableSelectorAnimator.cs:250-277 | for one button the expanded and collapsed heights agree exactly when its left and right margins add up to its top and bottom ones |
| `Selection.ConfigureButtonContent` | src/Xamarin.Android.ExpandableSelector/Xamarin.Android.ExpandableSelector/ExpandableSelector.cs:354-381 | applies the item's background when it has one; shows a title only on a text button; shows an image only on an image button for an item without a title; nothing else changes |
| `Selection.RenderedButtons` | src/Xamarin.Android.ExpandableSelector/Xamarin.Android.ExpandableSelector/ExpandableSelector.cs:280-292 | one button per item; every rendered button is untranslated and has no handler yet |
| `Selection.RenderedButtonShowsItem` | src/Xamarin.Android.ExpandableSelector/Xamarin.Android.ExpandableSelector/ExpandableSelector.cs:325-381 | a rendered button is a text button showing the title when the item has one, otherwise an image button showing its image; it carries the item's background and is visible only for item 0 |
| `Selection.OnlyFirstItemStartsVisible` | src/Xamarin.Android.ExpandableSelector/Xamarin.Android.ExpandableSelector/ExpandableSelector.cs:280-343 | after rendering, button k is visible exactly when it is the last button, the one showing item 0 |
| `Selection.Selector.constructor` | src/Xamarin.Android.ExpandableSelector/Xamarin.Android.ExpandableSelector/ExpandableSelector.cs:207-249 | a new selector has no items or buttons and is collapsed; it stores its background and hide-first-item setting, and starts transparent when it hides its background while collapsed |
| `Selection.Selector.ShowExpandableItems` | src/Xamarin.Android.ExpandableSelector/Xamarin.Android.ExpandableSelector/ExpandableSelector.cs:138-148 | a null list fails with an argument-null error and changes nothing; otherwise the items are stored, button k is the one rendered for item `n-1-k` with its hooked handler, and the selector is collapsed |
| `Selection.Selector.Reset` | src/Xamarin.Android.ExpandableSelector/Xamarin.Android.ExpandableSelector/ExpandableSelector.cs:267-278 | empties the items and buttons and leaves the animator collapsed |
| `Selection.Selector.RenderExpandableItems` | src/Xamarin.Android.ExpandableSelector/Xamarin.Android.ExpandableSelector/ExpandableSelector.cs:280-292 | the descending loop builds exactly the rendered buttons, in reverse item order |
| `Selection.Selector.HookEvents` | src/Xamarin.Android.ExpandableSelector/Xamarin.Android.ExpandableSelector/ExpandableSelector.cs:294-323 | the last button gets the expand-or-report handler when there is more than one button; every other button i gets the report handler for position i; nothing else changes |
| `Selection.Selector.Expand` | src/Xamarin.Android.ExpandableSelector/Xamarin.Android.ExpandableSelector/ExpandableSelector.cs:155-164 | as the animator's Expand, keeping buttons and items in step |
| `Selection.Selector.Collapse` | src/Xamarin.Android.ExpandableSelector/Xamarin.Android.ExpandableSelector/ExpandableSelector.cs:171-180 | as the animator's Collapse, keeping buttons and items in step |
| `Selection.Selector.GetExpandableItem` | src/Xamarin.Android.ExpandableSelector/Xamarin.Android.ExpandableSelector/ExpandableSelector.cs:187-190 | yields the item at a position inside the list and an out-of-range error outside it |
| `Selection.Selector.UpdateExpandableItem` | src/Xamarin.Android.ExpandableSelector/Xamarin.Android.ExpandableSelector/ExpandableSelector.cs:198-205 | a null item or a position outside the list fails and changes nothing; otherwise the list keeps its length with the new item at the position, and only button `n-1-position` is reconfigured |
| `Selection.Selector.UpdateBackground` | src/Xamarin.Android.ExpandableSelector/Xamarin.Android.ExpandableSelector/ExpandableSelector.cs:251-265 | changes nothing unless the background is hidden while collapsed; then it is the stored background when expanded and transparent when collapsed |
| `Selection.Selector.Click` | src/Xamarin.Android.ExpandableSelector/Xamarin.Android.ExpandableSelector/ExpandableSelector.cs:296-322 | runs the button's handler: an expand request expands the selector, and any other reaction leaves the state unchanged |
| `Selection.ClickReportsShownItem` | src/Xamarin.Android.ExpandableSelector/Xamarin.Android.ExpandableSelector/ExpandableSelector.cs:314-322 | clicking button `i < n-1` reports index `n-1-i` with `ExpandableItems[n-1-i]`, the item that button shows |
| `Selection.LastButtonReaction` | src/Xamarin.Android.ExpandableSelector/Xamarin.Android.ExpandableSelector/ExpandableSelector.cs:296-311 | a lone button has no handler; with more buttons the last one expands a collapsed selector and otherwise reports index 0 with `ExpandableItems[n-1]` |
| `Selection.LastButtonReportsWrongItem` | src/Xamarin.Android.ExpandableSelector/Xamarin.Android.ExpandableSelector/ExpandableSelector.cs:300-311 | when the first and last items differ, the last button shows item 0 but its report pairs index 0 with a different item |
| `Selection.TwoItemsWitness` | src/Xamarin.Android.ExpandableSelector/Xamarin.Android.ExpandableSelector/ExpandableSelector.cs:300-311 | with items titled "a" and "b", the expanded last button reports index 0 with item "b" |
| `Selection.IntendedClickReportsShownItem` | src/Xamarin.Android.ExpandableSelector/Xamarin.Android.ExpandableSelector/ExpandableSelector.cs:296-322 | with the corrected reaction, every report pairs the index of the item shown on the clicked button with that item |
| `Animation.Animator.IsExpanded` | src/Xamarin.Android.ExpandableSelector/Xamarin.Android.ExpandableSelector/Animation/ExpandableSelectorAnimator.cs:50-53 | the animator is expanded exactly when it is not collapsed |
| `Animation.SumHeight` | src/Xamarin.Android.ExpandableSelector/Xamarin.Android.ExpandableSelector/Animation/ExpandableSelectorAnimator.cs:250-253 | GetSumHeight: the sum over all buttons of `Height + RightMargin + LeftMargin`, 0 for no buttons |
| `Animation.FirstItemHeight` | src/Xamarin.Android.ExpandableSelector/Xamarin.Android.ExpandableSelector/Animation/ExpandableSelectorAnimator.cs:267-277 | GetFirstItemHeight: the first button's height plus its top and bottom margins; indexing an empty list is an out-of-range error |
| `Animation.ExpandedTargets` | src/Xamarin.Android.ExpandableSelector/Xamarin.Android.ExpandableSelector/Animation/ExpandableSelectorAnimator.cs:196-206 | the expanded target of button i: minus the footprints of the buttons after it, one target per button |
| `Animation.AffectedCount` | src/Xamarin.Android.ExpandableSelector/Xamarin.Android.ExpandableSelector/Animation/ExpandableSelectorAnimator.cs:210-212 | `lastItem`: the number of buttons whose visibility changes, all of them when the first item is hidden on collapse and otherwise all but the last |
| `Animation.WithVisibility` | src/Xamarin.Android.ExpandableSelector/Xamarin.Android.ExpandableSelector/Animation/ExpandableSelectorAnimator.cs:213-217 | the first `count` buttons are given the visibility; every other button and every other field stays; the list keeps its length |
| `Animation.SumHeightDependsOnGeometryOnly` | src/Xamarin.Android.ExpandableSelector/Xamarin.Android.ExpandableSelector/Animation/ExpandableSelectorAnimator.cs:250-253 | two button lists with the same heights and margins have the same total footprint |
| `Selection.ValidateExpandableItem` | src/Xamarin.Android.ExpandableSelector/Xamarin.Android.ExpandableSelector/ExpandableSelector.cs:383-390 | a null item fails with an argument-null error naming `expandableItem`; any other item passes |
| `Selection.ValidateExpandableItems` | src/Xamarin.Android.ExpandableSelector/Xamarin.Android.ExpandableSelector/ExpandableSelector.cs:392-399 | a null list fails with an argument-null error naming `expandableItems`; any other list passes |
| `Selection.InitializeButton` | src/Xamarin.Android.ExpandableSelector/Xamarin.Android.ExpandableSelector/ExpandableSelector.cs:325-352 | the inflated button: a text button when the item has a title and an image button otherwise, visible only for position 0, untranslated, without content or handler |
| `Selection.HookedHandler` | src/Xamarin.Android.ExpandableSelector/Xamarin.Android.ExpandableSelector/ExpandableSelector.cs:294-323 | button i of n gets the expand-or-report handler when it is the last of several buttons, no handler when it is a lone button, and the report handler for position i otherwise |
| `Selection.HandlerReaction` | src/Xamarin.Android.ExpandableSelector/Xamarin.Android.ExpandableSelector/ExpandableSelector.cs:296-322 | a handler's reaction as written: expand a collapsed selector, or report index 0 with `ExpandableItems[n-1]`, or report `n-1-position` with the item at that index |
| `Selection.IntendedReaction` | src/Xamarin.Android.ExpandableSelector/Xamarin.Android.ExpandableSelector/ExpandableSelector.cs:296-322 | the corrected reaction: as written, except that the expanded last button reports index 0 with `ExpandableItems[0]` |
| `Selection.Selector.IsCollapsed` | src/Xamarin.Android.ExpandableSelector/Xamarin.Android.ExpandableSelector/ExpandableSelector.cs:63-66 | the selector's collapsed flag is the animator's |
| `Selection.Selector.IsExpanded` | src/Xamarin.Android.ExpandableSelector/Xamarin.Android.ExpandableSelector/ExpandableSelector.cs:71-74 | the selector's expanded flag is the animator's |
| `Items.Make` | src/Xamarin.Android.ExpandableSelector/Xamarin.Android.ExpandableSelector/ExpandableItem.cs:31-35 | the private constructor: stores the background id and the title, and leaves the resource id at the default 0 |
| `Items.Blank` | src/Xamarin.Android.ExpandableSelector/Xamarin.Android.ExpandableSelector/ExpandableItem.cs:16-19 | `new ExpandableItem()`: the private constructor with `NO_ID` and a null title |
| `Items.WithBackground` | src/Xamarin.Android.ExpandableSelector/Xamarin.Android.ExpandableSelector/ExpandableItem.cs:21-24 | `new ExpandableItem(int)`: the private constructor with the given background id and a null title |
| `Items.WithTitle` | src/Xamarin.Android.ExpandableSelector/Xamarin.Android.ExpandableSelector/ExpandableItem.cs:26-29 | `new ExpandableItem(string)`: the private constructor with `NO_ID` and the given title, which may be null |
| `Items.Item.HasResourceId` | src/Xamarin.Android.ExpandableSelector/Xamarin.Android.ExpandableSelector/ExpandableItem.cs:37-40 | the item has a resource id exactly when it is not `NO_ID` |
| `Items.Item.HasBackgroundId` | src/Xamarin.Android.ExpandableSelector/Xamarin.Android.ExpandableSelector/ExpandableItem.cs:42-45 | the item has a background id exactly when it is not `NO_ID` |
| `Items.Item.HasTitle` | src/Xamarin.Android.ExpandableSelector/Xamarin.Android.ExpandableSelector/ExpandableItem.cs:47-50 | the item has a title exactly when the title is neither null nor empty |
| `Selection.RenderedButton` | src/Xamarin.Android.ExpandableSelector/Xamarin.Android.ExpandableSelector/ExpandableSelector.cs:285-289 | the button for one item: the button inflated for it at its position, then configured with that item |
| `Animation.Footprint` | src/Xamarin.Android.ExpandableSelector/Xamarin.Android.ExpandableSelector/Animation/ExpandableSelectorAnimator.cs:203 | the space one button takes in the expanded fan: its height plus its right and left margins |

## Findings

| source | as written | input that shows it | evidently intended | confidence | as-written member | corrected member |
|---|---|---|---|---|---|---|
| src/Xamarin.Android.ExpandableSelector/Xamarin.Android.ExpandableSelector/ExpandableSelector.cs:309 | an expanded selector's last button reports `OnItemClick(0, ExpandableItems[numberOfButtons - 1])` | items titled "a" and "b"; expand, then click button 1, which shows "a": the event carries index 0 and item "b" | `OnItemClick(0, ExpandableItems[0])`, the item the button shows | high; not executed | `Selection.LastButtonReportsWrongItem` | `Selection.IntendedClickReportsShownItem` |

`Selection.HandlerReaction` is the handler as written and `Selection.IntendedReaction` is the
corrected one. `Selector.Click` keeps the behaviour as written so that the class matches the widget.

## Left out

- `ResizeAnimation`, durations, interpolators, the container's duration factor and animation
  playback are floating-point and host-toolkit behaviour. Targets are given as ints, and the
  container width, which does not change, is not modelled.
- `Animation.Animator.Expand` and `Animation.Animator.Collapse` do not model the resize animation or
  its end delegates. The source subscribes those delegates on `_container.Animation`, whatever
  animation the container currently holds, before `StartAnimation` runs. When the container holds
  none, that dereference throws a null-reference exception. By then the flag has changed, Expand has
  changed the visibility, and the button animators have started; the resize animation never starts.
  The model's post-state is the source's state at that throw, and the model does not report the
  exception. The delegates' visibility change is `ChangeButtonsVisibility`, which can be called on
  its own.
- The `AnimationFinished`, `Expanded`, `Collapsed`, `StartExpand` and `StartCollapse` events are
  asynchronous plumbing and are not modelled. This includes the fact that every `Expand` and
  `Collapse` adds one more finish handler that is never removed.
- Layout inflation, view measurement, `SetBackgroundResource`, `SetImageResource` and `Text` are
  abstracted. They are modelled as the record fields they change, and a button's geometry is the
  one given for its layout.
- Gravity changes (the animator's `InitializeButton`), `AddView`/`RemoveView` and
  `BringChildsToFront` child ordering are Android view APIs with no observable effect here.
- Before the first `ShowExpandableItems`, the source's `ExpandableItems` and the animator's `Buttons`
  are null. The model starts both empty, so each of these calls differs from the source:
  - `Selection.Selector.UpdateExpandableItem` fails with an out-of-range error, while the source
    throws a null-reference exception.
  - `Selection.Selector.GetExpandableItem` returns an out-of-range error, while the source throws a
    null-reference exception at the indexer.
  - `Selection.Selector.Expand` succeeds with no targets. The source throws a null-reference
    exception in `ChangeButtonsVisibility`, after it has set the selector expanded.
  - `Selection.Selector.Collapse` returns an out-of-range error as the container height. The source
    throws a null-reference exception in `CollapseButtons`, after it has set the selector collapsed.
- Null elements inside the item list are not modelled: items are values.
- The public `ExpandableItems` and `Buttons` setters are not modelled, and neither is a caller
  changing the list it passed in. The model owns both lists.
- `ExpandableItem`'s property setters are plain record updates and have no members of their own.
- 32-bit overflow in the sums of heights and margins is not modelled: integers are unbounded.
