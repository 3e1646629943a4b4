/** ExpandableSelectorAnimator: where each button goes and how tall the
    container becomes when the selector expands or collapses. */
module Animation {
  import opened Common
  import opened Views

  /** The space one button takes in the expanded fan: its height plus its
      right and left margins (the source adds the horizontal margins). */
  function Footprint(b: Button): int
  {
    b.geometry.height + b.geometry.rightMargin + b.geometry.leftMargin
  }

  /** GetSumHeight: the total footprint of the buttons, the container's
      expanded height. */
  function SumHeight(bs: seq<Button>): int
  {
    if bs == [] then 0 else Footprint(bs[0]) + SumHeight(bs[1..])
  }

  /** The target translation of every button when expanded: button i moves up
      by the footprints of all buttons after it. */
  function ExpandedTargets(bs: seq<Button>): (ys: seq<int>)
    ensures |ys| == |bs|
  {
    seq(|bs|, i requires 0 <= i < |bs| => -SumHeight(bs[i + 1..]))
  }

  /** GetFirstItemHeight: the first button's height plus its top and bottom
      margins, the container's collapsed height. Indexing an empty list throws. */
  function FirstItemHeight(bs: seq<Button>): Result<int>
  {
    if bs == [] then Err(ArgumentOutOfRange)
    else Ok(bs[0].geometry.height + bs[0].geometry.topMargin + bs[0].geometry.bottomMargin)
  }

  /** How many leading buttons ChangeButtonsVisibility touches: all of them
      when the first item is hidden on collapse, otherwise all but the last. */
  function AffectedCount(n: int, hideFirstItemOnCollapse: bool): int
  {
    if hideFirstItemOnCollapse then n else n - 1
  }

  /** The first `count` buttons are given visibility `v`; every other button and every
      other field stays, and the list keeps its length. */
  function WithVisibility(bs: seq<Button>, count: int, v: ViewState): (r: seq<Button>)
    ensures |r| == |bs|
  {
    seq(|bs|, i requires 0 <= i < |bs| => if i < count then bs[i].(visibility := v) else bs[i])
  }

  predicate SameGeometry(bs: seq<Button>, cs: seq<Button>)
  {
    |bs| == |cs| && forall i :: 0 <= i < |bs| ==> bs[i].geometry == cs[i].geometry
  }

  predicate NonNegativeGeometry(b: Button)
  {
    && b.geometry.height >= 0
    && b.geometry.leftMargin >= 0 && b.geometry.topMargin >= 0
    && b.geometry.rightMargin >= 0 && b.geometry.bottomMargin >= 0
  }

  predicate AllNonNegative(bs: seq<Button>)
  {
    forall i :: 0 <= i < |bs| ==> NonNegativeGeometry(bs[i])
  }

  class Animator {
    /** The buttons the animation parameters are computed from. */
    var buttons: seq<Button>
    var isCollapsed: bool
    var hideFirstItemOnCollapse: bool

    /** A new animator starts collapsed. */
    constructor ()
      ensures isCollapsed && !IsExpanded()
      ensures buttons == [] && !hideFirstItemOnCollapse
    {
      buttons := [];
      isCollapsed := true;
      hideFirstItemOnCollapse := false;
    }

    predicate IsExpanded()
      reads this
    {
      !isCollapsed
    }

    /** Marks the selector expanded, makes the affected buttons visible before
        any animation starts, and yields the animation targets: one translation
        per button and the container's new height. */
    method Expand() returns (targets: array<int>, containerHeight: int)
      modifies this`isCollapsed, this`buttons
      ensures IsExpanded()
      ensures buttons == WithVisibility(old(buttons), AffectedCount(|old(buttons)|, hideFirstItemOnCollapse), Visible)
      ensures fresh(targets) && targets[..] == ExpandedTargets(old(buttons))
      ensures containerHeight == SumHeight(old(buttons))
    {
      isCollapsed := false;
      ChangeButtonsVisibility(Visible);
      targets := ExpandButtons();
      // ExpandContainer: the resize animation's target height
      containerHeight := SumHeight(buttons);
      WithVisibilityKeepsGeometry(old(buttons), AffectedCount(|old(buttons)|, hideFirstItemOnCollapse), Visible);
      TargetsDependOnGeometryOnly(old(buttons), buttons);
    }

    /** Marks the selector collapsed and yields the animation targets: every
        button goes back to translation 0 and the container to the first
        button's height, which throws when there is no button. The buttons are
        hidden only when the container animation ends. */
    method Collapse() returns (targets: array<int>, containerHeight: Result<int>)
      modifies this`isCollapsed
      ensures isCollapsed
      ensures fresh(targets) && targets.Length == |buttons|
      ensures forall i :: 0 <= i < targets.Length ==> targets[i] == 0
      ensures containerHeight.Ok? <==> buttons != []
      ensures containerHeight == FirstItemHeight(buttons)
    {
      isCollapsed := true;
      targets := CollapseButtons();
      // CollapseContainer: the resize animation's target height
      containerHeight := FirstItemHeight(buttons);
    }

    /** Back to the initial state; the hide-first-item setting is kept. */
    method Reset()
      modifies this`buttons, this`isCollapsed
      ensures buttons == [] && isCollapsed
    {
      buttons := [];
      isCollapsed := true;
    }

    /** One target translation per button, as the expand animators get them. */
    method ExpandButtons() returns (animations: array<int>)
      ensures fresh(animations) && animations[..] == ExpandedTargets(buttons)
    {
      var numberOfButtons := |buttons|;
      animations := new int[numberOfButtons];
      for i := 0 to numberOfButtons
        invariant forall k :: 0 <= k < i ==> animations[k] == -SumHeight(buttons[k + 1..])
      {
        var toY := CalculateExpandedYPosition(i);
        animations[i] := toY;
      }
    }

    /** Translation 0 for every button, as the collapse animators get them. */
    method CollapseButtons() returns (animations: array<int>)
      ensures fresh(animations) && animations.Length == |buttons|
      ensures forall i :: 0 <= i < animations.Length ==> animations[i] == 0
    {
      var numberOfButtons := |buttons|;
      animations := new int[numberOfButtons];
      for i := 0 to numberOfButtons
        invariant forall k :: 0 <= k < i ==> animations[k] == 0
      {
        animations[i] := 0;
      }
    }

    /** The expanded translation of one button: minus the footprints of all the
        buttons after it, accumulated from the last button down. */
    method CalculateExpandedYPosition(buttonPosition: int) returns (y: int)
      requires 0 <= buttonPosition < |buttons|
      ensures y == -SumHeight(buttons[buttonPosition + 1..])
    {
      var numberOfButtons := |buttons|;
      y := 0;
      var i := numberOfButtons - 1;
      while i > buttonPosition
        invariant buttonPosition <= i < numberOfButtons
        invariant y == -SumHeight(buttons[i + 1..])
      {
        var button := buttons[i];
        y := y - button.geometry.height - button.geometry.rightMargin - button.geometry.leftMargin;
        assert buttons[i..][1..] == buttons[i + 1..];
        i := i - 1;
      }
    }

    /** Gives the first AffectedCount buttons visibility `v`; the others, and
        everything else about every button, stay as they were. The container
        animation's end runs this with Visible after Expand and Invisible after
        Collapse. */
    method ChangeButtonsVisibility(v: ViewState)
      modifies this`buttons
      ensures buttons == WithVisibility(old(buttons), AffectedCount(|old(buttons)|, hideFirstItemOnCollapse), v)
    {
      var lastItem := AffectedCount(|buttons|, hideFirstItemOnCollapse);
      var i := 0;
      while i < lastItem
        invariant 0 <= i <= |buttons| && (i <= lastItem || i == 0)
        invariant |buttons| == |old(buttons)|
        invariant forall k :: 0 <= k < |buttons| ==>
          buttons[k] == if k < i then old(buttons)[k].(visibility := v) else old(buttons)[k]
      {
        buttons := buttons[i := buttons[i].(visibility := v)];
        i := i + 1;
      }
      assert forall k :: 0 <= k < |buttons| ==>
        buttons[k] == WithVisibility(old(buttons), lastItem, v)[k];
    }

    /** Every button animator has reached its target translation. */
    method SettleButtons(targets: array<int>)
      requires targets.Length == |buttons|
      modifies this`buttons
      ensures |buttons| == |old(buttons)|
      ensures forall i :: 0 <= i < |buttons| ==> buttons[i] == old(buttons)[i].(translationY := targets[i])
    {
      for i := 0 to |buttons|
        invariant |buttons| == |old(buttons)| == targets.Length
        invariant forall k :: 0 <= k < |buttons| ==>
          buttons[k] == if k < i then old(buttons)[k].(translationY := targets[k]) else old(buttons)[k]
      {
        buttons := buttons[i := buttons[i].(translationY := targets[i])];
      }
    }
  }

  /** Total footprint splits over concatenation. */
  lemma {:induction false} SumHeightAppend(a: seq<Button>, b: seq<Button>)
    ensures SumHeight(a + b) == SumHeight(a) + SumHeight(b)
  {
    if a == [] {
      assert a + b == b;
    } else {
      assert (a + b)[1..] == a[1..] + b;
      SumHeightAppend(a[1..], b);
    }
  }

  /** With non-negative heights and margins the total footprint is non-negative. */
  lemma {:induction false} SumHeightNonNegative(bs: seq<Button>)
    requires AllNonNegative(bs)
    ensures SumHeight(bs) >= 0
  {
    if bs != [] {
      assert AllNonNegative(bs[1..]) by {
        forall i | 0 <= i < |bs[1..]| ensures NonNegativeGeometry(bs[1..][i]) {
          assert bs[1..][i] == bs[i + 1];
        }
      }
      SumHeightNonNegative(bs[1..]);
    }
  }

  /** The total footprint depends only on the buttons' geometry. */
  lemma {:induction false} SumHeightDependsOnGeometryOnly(bs: seq<Button>, cs: seq<Button>)
    requires SameGeometry(bs, cs)
    ensures SumHeight(bs) == SumHeight(cs)
  {
    if bs != [] {
      assert SameGeometry(bs[1..], cs[1..]) by {
        forall i | 0 <= i < |bs[1..]| ensures bs[1..][i].geometry == cs[1..][i].geometry {
          assert bs[1..][i] == bs[i + 1] && cs[1..][i] == cs[i + 1];
        }
      }
      SumHeightDependsOnGeometryOnly(bs[1..], cs[1..]);
    }
  }

  /** Targets and container heights depend only on geometry, so changing
      visibility (as Expand does first) does not move any target. */
  lemma TargetsDependOnGeometryOnly(bs: seq<Button>, cs: seq<Button>)
    requires SameGeometry(bs, cs)
    ensures ExpandedTargets(bs) == ExpandedTargets(cs)
    ensures SumHeight(bs) == SumHeight(cs)
    ensures FirstItemHeight(bs) == FirstItemHeight(cs)
  {
    forall i | 0 <= i < |bs| ensures ExpandedTargets(bs)[i] == ExpandedTargets(cs)[i] {
      var bTail, cTail := bs[i + 1..], cs[i + 1..];
      assert SameGeometry(bTail, cTail) by {
        forall k | 0 <= k < |bTail| ensures bTail[k].geometry == cTail[k].geometry {
          assert bTail[k] == bs[i + 1 + k] && cTail[k] == cs[i + 1 + k];
        }
      }
      SumHeightDependsOnGeometryOnly(bTail, cTail);
    }
    SumHeightDependsOnGeometryOnly(bs, cs);
  }

  /** Changing visibility keeps every button's geometry, its place, its
      translation and its handler. */
  lemma WithVisibilityKeepsGeometry(bs: seq<Button>, count: int, v: ViewState)
    ensures SameGeometry(bs, WithVisibility(bs, count, v))
    ensures forall i :: 0 <= i < |bs| ==> WithVisibility(bs, count, v)[i].onClick == bs[i].onClick
  {
  }

  /** Setting the same visibility twice is the same as setting it once. */
  lemma WithVisibilityIdempotent(bs: seq<Button>, count: int, v: ViewState)
    ensures WithVisibility(WithVisibility(bs, count, v), count, v) == WithVisibility(bs, count, v)
  {
  }

  /** Unless the first item is hidden on collapse, the last button (the one
      showing item 0) never has its visibility changed; otherwise every
      button gets `v`. */
  lemma VisibilityOfLastButton(bs: seq<Button>, hideFirstItemOnCollapse: bool, v: ViewState)
    requires bs != []
    ensures var r := WithVisibility(bs, AffectedCount(|bs|, hideFirstItemOnCollapse), v);
      && (!hideFirstItemOnCollapse ==> r[|bs| - 1] == bs[|bs| - 1])
      && (hideFirstItemOnCollapse ==> forall i :: 0 <= i < |bs| ==> r[i].visibility == v)
      && (forall i :: 0 <= i < |bs| - 1 ==> r[i].visibility == v)
  {
  }

  /** The last button stays in place, and each other target is the next one
      minus the next button's footprint. */
  lemma ExpandedTargetStep(bs: seq<Button>, i: int)
    requires 0 <= i < |bs|
    ensures i == |bs| - 1 ==> ExpandedTargets(bs)[i] == 0
    ensures i < |bs| - 1 ==> ExpandedTargets(bs)[i] == ExpandedTargets(bs)[i + 1] - Footprint(bs[i + 1])
  {
    if i < |bs| - 1 {
      assert bs[i + 1..][1..] == bs[i + 2..];
    }
  }

  /** With non-negative geometry the targets never increase as the index
      decreases, and none is positive. */
  lemma ExpandedTargetsDescend(bs: seq<Button>, i: int, j: int)
    requires AllNonNegative(bs)
    requires 0 <= i <= j < |bs|
    ensures ExpandedTargets(bs)[i] <= ExpandedTargets(bs)[j] <= 0
  {
    var between, after := bs[i + 1..j + 1], bs[j + 1..];
    assert bs[i + 1..] == between + after;
    SumHeightAppend(between, after);
    assert AllNonNegative(between) by {
      forall k | 0 <= k < |between| ensures NonNegativeGeometry(between[k]) {
        assert between[k] == bs[i + 1 + k];
      }
    }
    assert AllNonNegative(after) by {
      forall k | 0 <= k < |after| ensures NonNegativeGeometry(after[k]) {
        assert after[k] == bs[j + 1 + k];
      }
    }
    SumHeightNonNegative(between);
    SumHeightNonNegative(after);
  }

  /** The expanded container is exactly tall enough for the first button at
      its target: total footprint = -y_0 + footprint of button 0. */
  lemma ExpandedHeightFromFirstTarget(bs: seq<Button>)
    requires bs != []
    ensures SumHeight(bs) == -ExpandedTargets(bs)[0] + Footprint(bs[0])
  {
  }

  /** With one button the expanded and collapsed container heights agree
      exactly when its horizontal margins add up to its vertical ones. */
  lemma SingleButtonHeights(b: Button)
    ensures FirstItemHeight([b]).Ok?
    ensures SumHeight([b]) == FirstItemHeight([b]).value <==>
      b.geometry.leftMargin + b.geometry.rightMargin == b.geometry.topMargin + b.geometry.bottomMargin
  {
    assert [b][1..] == [];
  }
}
