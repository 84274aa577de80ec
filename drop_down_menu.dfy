/**
  The overlay menu that slides its content view in from the top or the bottom
  edge of a container view, fading a background view behind it.

  Geometry is exact: every `CGFloat` is a `real`. Only the vertical axis is
  modelled, since the show/hide animations and the layout change nothing else.
  `UIView.animate` is read as "apply the assignments of the animation block";
  the completion block of the hide animation is a separate step.
*/
module Menu {
  import opened Wrappers

  /** Which edge of the container the menu is revealed from. */
  datatype Direction = Up | Down

  /** The container the menu is added to; its frame and bounds share one height. */
  datatype ContainerView = ContainerView(height: real)

  /** The optional background view faded in behind the content. */
  datatype BackgroundView = BackgroundView(originY: real, height: real, alpha: real)

  /** Identity of a view in the view hierarchy. */
  type ViewId = nat

  /** A view together with its chain of superviews (the hierarchy is finite and acyclic). */
  datatype View = View(id: ViewId, superview: Option<View>)

  // ---------------------------------------------------------------------------
  // View ancestry, used by the background tap recogniser
  // ---------------------------------------------------------------------------

  /** UIKit's `isDescendant(of:)`: the view itself or one of its superviews is `ancestor`. */
  predicate IsDescendant(v: View, ancestor: ViewId)
    decreases v
  {
    v.id == ancestor || (v.superview.Some? && IsDescendant(v.superview.value, ancestor))
  }

  /** The identities on the path from `v` up to the root of its hierarchy, `v` first. */
  function Ancestry(v: View): (path: seq<ViewId>)
    decreases v
  {
    [v.id] + (if v.superview.Some? then Ancestry(v.superview.value) else [])
  }

  /** Walking up the superview chain finds `ancestor` exactly when it is on the ancestry path. */
  lemma {:induction false} IsDescendantIffOnAncestry(v: View, ancestor: ViewId)
    ensures IsDescendant(v, ancestor) <==> ancestor in Ancestry(v)
    decreases v
  {
    if v.superview.Some? {
      IsDescendantIffOnAncestry(v.superview.value, ancestor);
    }
  }

  // ---------------------------------------------------------------------------
  // Positions of the content view
  // ---------------------------------------------------------------------------

  /** The height left between the top and the bottom visible insets. */
  function VisibleHeight(containerHeight: real, insetTop: real, insetBottom: real): real
  {
    containerHeight - insetTop - insetBottom
  }

  /**
    Where the content rests once it is shown: flush with the top inset when it
    drops down, flush with the bottom inset when it rises up. Content no higher
    than the visible height then lies wholly between the two insets.
  */
  function ShownOriginY(direction: Direction, containerHeight: real, contentHeight: real,
                        insetTop: real, insetBottom: real): (y: real)
    ensures contentHeight <= VisibleHeight(containerHeight, insetTop, insetBottom) ==>
              insetTop <= y && y + contentHeight <= containerHeight - insetBottom
  {
    match direction
    case Down => insetTop
    case Up => containerHeight - contentHeight - insetBottom
  }

  /**
    Where the content rests once it is hidden: `hiddenOffset` beyond the edge it
    was revealed from (above the top edge for Down, below the bottom edge for Up).
    With a non-negative offset the content then does not overlap the container.
  */
  function HiddenOriginY(direction: Direction, containerHeight: real, contentHeight: real,
                         hiddenOffset: real): (y: real)
    ensures contentHeight >= 0.0 && hiddenOffset >= 0.0 ==> y + contentHeight <= 0.0 || y >= containerHeight
  {
    match direction
    case Down => -(contentHeight + hiddenOffset)
    case Up => containerHeight + hiddenOffset
  }

  /**
    Where hide() puts the content before sliding it out. For Up the code
    subtracts the TOP inset, so this is where show() left the content exactly
    when the menu drops down or the two visible insets are equal.
  */
  function HideStartOriginY(direction: Direction, containerHeight: real, contentHeight: real,
                            insetTop: real): (y: real)
    ensures forall insetBottom: real ::
              y == ShownOriginY(direction, containerHeight, contentHeight, insetTop, insetBottom)
              <==> direction == Down || insetTop == insetBottom
  {
    match direction
    case Down => insetTop
    case Up => containerHeight - contentHeight - insetTop
  }

  /**
    The menu height chosen by layoutSubviews(): the menu's content height,
    unless that is more than the visible height, which then caps it.
  */
  function LaidOutMenuHeight(menuContentHeight: real, containerHeight: real,
                             insetTop: real, insetBottom: real): (h: real)
    ensures h <= menuContentHeight && h <= VisibleHeight(containerHeight, insetTop, insetBottom)
    ensures h == menuContentHeight || h == VisibleHeight(containerHeight, insetTop, insetBottom)
  {
    var visible := VisibleHeight(containerHeight, insetTop, insetBottom);
    if menuContentHeight <= visible then menuContentHeight else visible
  }

  /** Optional chaining `backgroundView?.alpha = alpha`. */
  function WithAlpha(background: Option<BackgroundView>, alpha: real): Option<BackgroundView>
  {
    match background
    case None => None
    case Some(b) => Some(b.(alpha := alpha))
  }

  /** Optional chaining of the two background assignments in layoutSubviews(). */
  function LaidOutBackground(background: Option<BackgroundView>, insetTop: real,
                             visibleHeight: real): Option<BackgroundView>
  {
    match background
    case None => None
    case Some(b) => Some(b.(originY := insetTop, height := visibleHeight))
  }

  // ---------------------------------------------------------------------------
  // Properties of the positions
  // ---------------------------------------------------------------------------

  /**
    A laid-out menu, once shown at the laid-out height, lies within the band
    between the two visible insets.
  */
  lemma LaidOutContentFitsVisibleBand(direction: Direction, menuContentHeight: real,
                                      containerHeight: real, insetTop: real, insetBottom: real)
    ensures var h := LaidOutMenuHeight(menuContentHeight, containerHeight, insetTop, insetBottom);
            var y := ShownOriginY(direction, containerHeight, h, insetTop, insetBottom);
            insetTop <= y && y + h <= containerHeight - insetBottom
  {
  }

  // ---------------------------------------------------------------------------
  // The menu view
  // ---------------------------------------------------------------------------

  class DropDownMenu {
    /** This view and its menu view, as identities in the view hierarchy. */
    const viewId: ViewId
    const menuViewId: ViewId

    /** `container`; once set it cannot go back to nil (its observer unwraps it). */
    var container: Option<ContainerView>
    /** `contentView.frame.origin.y` and `contentView.frame.size.height`. */
    var contentOriginY: real
    var contentHeight: real
    /** `menuView.frame.size.height` and `menuContentSize.height`. */
    var menuHeight: real
    var menuContentHeight: real
    var hiddenContentOffset: real
    var visibleContentInsetTop: real
    var visibleContentInsetBottom: real
    var direction: Direction
    var backgroundView: Option<BackgroundView>
    var backgroundAlpha: real
    var isHidden: bool
    /** Where the content view was when the last slide animation began. */
    ghost var slideStartY: real

    /** A visible menu always has a container: show() demands one, and it is never unset. */
    ghost predicate Valid()
      reads this
    {
      !isHidden ==> container.Some?
    }

    /** `init(frame:menuView:)`: the content view fills the frame and the menu starts hidden. */
    constructor (frameHeight: real, menuViewHeight: real, viewId: ViewId, menuViewId: ViewId)
      ensures Valid() && isHidden
      ensures this.viewId == viewId && this.menuViewId == menuViewId
      ensures container == None && backgroundView == None && direction == Down
      ensures contentOriginY == 0.0 && contentHeight == frameHeight
      ensures menuHeight == menuViewHeight && menuContentHeight == menuViewHeight
      ensures hiddenContentOffset == 0.0 && backgroundAlpha == 1.0
      ensures visibleContentInsetTop == 0.0 && visibleContentInsetBottom == 0.0
    {
      this.viewId := viewId;
      this.menuViewId := menuViewId;
      container := None;
      contentOriginY := 0.0;
      contentHeight := frameHeight;
      menuHeight := menuViewHeight;
      menuContentHeight := menuViewHeight;
      hiddenContentOffset := 0.0;
      visibleContentInsetTop := 0.0;
      visibleContentInsetBottom := 0.0;
      direction := Down;
      backgroundView := None;
      backgroundAlpha := 1.0;
      isHidden := true;
      slideStartY := 0.0;
    }

    /**
      `layoutSubviews()`. The content origin is computed from the content
      height as it was BEFORE this layout; the height is updated afterwards.
    */
    method LayoutSubviews()
      requires Valid() && container.Some?
      modifies this`backgroundView, this`contentOriginY, this`menuHeight, this`contentHeight
      ensures Valid()
      ensures contentOriginY == ShownOriginY(direction, container.value.height, old(contentHeight),
                                             visibleContentInsetTop, visibleContentInsetBottom)
      ensures menuHeight == LaidOutMenuHeight(menuContentHeight, container.value.height,
                                              visibleContentInsetTop, visibleContentInsetBottom)
      ensures contentHeight == menuHeight
      ensures backgroundView == LaidOutBackground(old(backgroundView), visibleContentInsetTop,
              VisibleHeight(container.value.height, visibleContentInsetTop, visibleContentInsetBottom))
    {
      if backgroundView.Some? {
        backgroundView := Some(backgroundView.value.(originY := visibleContentInsetTop));
      }
      if direction == Down {
        contentOriginY := visibleContentInsetTop;
      } else {
        contentOriginY := container.value.height - contentHeight - visibleContentInsetBottom;
      }
      var visibleHeight := container.value.height - visibleContentInsetTop - visibleContentInsetBottom;
      if backgroundView.Some? {
        backgroundView := Some(backgroundView.value.(height := visibleHeight));
      }
      menuHeight := if menuContentHeight <= visibleHeight then menuContentHeight else visibleHeight;
      contentHeight := menuHeight;
    }

    /**
      `gestureRecognizer(_:shouldReceive:)`: the background tap recogniser
      takes a touch unless it lands in the menu view or one of its subviews.
    */
    function ShouldReceiveTouch(recognizerView: ViewId, touchedView: Option<View>): (accept: bool)
      requires recognizerView == viewId
      ensures accept <==> touchedView == None || menuViewId !in Ancestry(touchedView.value)
    {
      match touchedView
      case None => true
      case Some(v) =>
        IsDescendantIffOnAncestry(v, menuViewId);
        !IsDescendant(v, menuViewId)
    }

    /**
      `show()`: a hidden menu is put just off screen, made visible, and slid
      to its shown position while the background fades in. A visible menu is
      left as it is.
    */
    method Show()
      requires Valid() && container.Some?
      modifies this`backgroundView, this`contentOriginY, this`isHidden, this`slideStartY
      ensures Valid()
      ensures !old(isHidden) ==> unchanged(this)
      ensures old(isHidden) ==> !isHidden
      ensures old(isHidden) ==> slideStartY == HiddenOriginY(direction, container.value.height,
                                                            contentHeight, hiddenContentOffset)
      ensures old(isHidden) ==> contentOriginY == ShownOriginY(direction, container.value.height,
                                contentHeight, visibleContentInsetTop, visibleContentInsetBottom)
      ensures old(isHidden) ==> backgroundView == WithAlpha(old(backgroundView), backgroundAlpha)
    {
      if !isHidden {
        return;
      }
      backgroundView := WithAlpha(backgroundView, 0.0);
      if direction == Down {
        contentOriginY := -(contentHeight + hiddenContentOffset);
      } else {
        contentOriginY := container.value.height + hiddenContentOffset;
      }
      isHidden := false;
      slideStartY := contentOriginY;
      // the animation block
      if direction == Down {
        contentOriginY := visibleContentInsetTop;
      } else {
        contentOriginY := container.value.height - contentHeight - visibleContentInsetBottom;
      }
      backgroundView := WithAlpha(backgroundView, backgroundAlpha);
    }

    /**
      The synchronous part of `hide()`: a visible menu is put at its hide start
      position and slid off screen while the background fades out; it stays
      visible until CompleteHide runs. Returns whether that completion is
      pending. A hidden menu is left as it is.
    */
    method BeginHide() returns (completionPending: bool)
      requires Valid()
      modifies this`backgroundView, this`contentOriginY, this`isHidden, this`slideStartY
      ensures Valid()
      ensures completionPending == !old(isHidden)
      ensures !completionPending ==> unchanged(this)
      ensures completionPending ==> !isHidden
      ensures completionPending ==> slideStartY == HideStartOriginY(direction, container.value.height,
                                                                   contentHeight, visibleContentInsetTop)
      ensures completionPending ==> contentOriginY == HiddenOriginY(direction, container.value.height,
                                                                   contentHeight, hiddenContentOffset)
      ensures completionPending ==> backgroundView == WithAlpha(old(backgroundView), 0.0)
    {
      if isHidden {
        return false;
      }
      if direction == Down {
        contentOriginY := visibleContentInsetTop;
      } else {
        contentOriginY := container.value.height - contentHeight - visibleContentInsetTop;
      }
      isHidden := false;
      slideStartY := contentOriginY;
      // the animation block
      if direction == Down {
        contentOriginY := -(contentHeight + hiddenContentOffset);
      } else {
        contentOriginY := container.value.height + hiddenContentOffset;
      }
      backgroundView := WithAlpha(backgroundView, 0.0);
      completionPending := true;
    }

    /** The completion block of the hide animation. */
    method CompleteHide()
      requires Valid()
      modifies this`isHidden
      ensures Valid() && isHidden
    {
      isHidden := true;
    }

    /** `hide()` with its animation finished: the animation block, then the completion. */
    method Hide()
      requires Valid()
      modifies this`backgroundView, this`contentOriginY, this`isHidden, this`slideStartY
      ensures Valid() && isHidden
      ensures old(isHidden) ==> unchanged(this)
      ensures !old(isHidden) ==> slideStartY == HideStartOriginY(direction, container.value.height,
                                                                contentHeight, visibleContentInsetTop)
      ensures !old(isHidden) ==> contentOriginY == HiddenOriginY(direction, container.value.height,
                                                                contentHeight, hiddenContentOffset)
      ensures !old(isHidden) ==> backgroundView == WithAlpha(old(backgroundView), 0.0)
    {
      var completionPending := BeginHide();
      if completionPending {
        CompleteHide();
      }
    }
  }

  // ---------------------------------------------------------------------------
  // Sequences of calls
  // ---------------------------------------------------------------------------

  /**
    Showing a hidden menu and hiding it again brings the content back to where
    show() started it, with the background faded out; the hide slide starts
    where the show slide ended when the menu drops down or the insets agree.
  */
  method ShowThenHide(m: DropDownMenu)
    requires m.Valid() && m.isHidden && m.container.Some?
    modifies m
    ensures m.Valid() && m.isHidden && m.container == old(m.container)
    ensures m.contentOriginY == old(HiddenOriginY(m.direction, m.container.value.height,
                                                  m.contentHeight, m.hiddenContentOffset))
    ensures m.backgroundView == WithAlpha(old(m.backgroundView), 0.0)
    ensures m.direction == Down || m.visibleContentInsetTop == m.visibleContentInsetBottom ==>
              m.slideStartY == ShownOriginY(m.direction, m.container.value.height, m.contentHeight,
                                            m.visibleContentInsetTop, m.visibleContentInsetBottom)
  {
    m.Show();
    m.Hide();
  }

  /**
    A show() issued while a hide animation is still running is ignored (the
    menu is not hidden yet), and the completion then hides the menu.
  */
  method ShowDuringHideIsLost(m: DropDownMenu)
    requires m.Valid() && !m.isHidden
    modifies m
    ensures m.Valid() && m.isHidden
    ensures m.contentOriginY == old(HiddenOriginY(m.direction, m.container.value.height,
                                                  m.contentHeight, m.hiddenContentOffset))
  {
    var completionPending := m.BeginHide();
    assert completionPending;
    m.Show();
    m.CompleteHide();
  }

  /**
    A second layoutSubviews() with nothing else changed settles the content:
    it then lies exactly at its shown position for the laid-out height.
  */
  method LayoutTwice(m: DropDownMenu)
    requires m.Valid() && m.container.Some?
    modifies m
    ensures m.Valid() && m.container == old(m.container)
    ensures m.contentHeight == LaidOutMenuHeight(m.menuContentHeight, m.container.value.height,
                                                 m.visibleContentInsetTop, m.visibleContentInsetBottom)
    ensures m.contentOriginY == ShownOriginY(m.direction, m.container.value.height, m.contentHeight,
                                             m.visibleContentInsetTop, m.visibleContentInsetBottom)
  {
    m.LayoutSubviews();
    m.LayoutSubviews();
  }
}
