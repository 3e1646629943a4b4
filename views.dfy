/** The part of an Android view that the selector reads or changes. */
module Views {
  import opened Common

  /** `ViewStates.Visible` / `ViewStates.Invisible`. */
  datatype ViewState = Visible | Invisible

  /** Which layout a button was inflated from: a text `Button` or an `ImageButton`. */
  datatype Kind = TextButton | ImageButton

  /** The measured height and the four layout margins of a button. */
  datatype Geometry = Geometry(height: int, leftMargin: int, topMargin: int, rightMargin: int, bottomMargin: int)

  /** The click handler attached to a button. Each captures the number of
      buttons at the time it was attached, and the item handler also its
      button's position. */
  datatype ClickHandler =
    | NoHandler
    | ExpandOrReport(count: int)
    | Report(count: int, position: int)

  /** A button of the selector. `background`, `text` and `image` are `None`
      while they still hold what the inflated layout gave them. */
  datatype Button = Button(
    kind: Kind,
    geometry: Geometry,
    visibility: ViewState,
    translationY: int,
    background: Option<int>,
    text: Option<string>,
    image: Option<int>,
    onClick: ClickHandler)
}
