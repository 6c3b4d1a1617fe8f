/** The display canvas of Quelea's lyrics windows
    (`org.quelea.windows.lyrics.DisplayCanvas`): a stack pane whose bottom
    child is either the current background or a black placeholder image,
    chosen by the `blacked` flag and re-established by the render pass. */
module Lyrics {
  import opened ChildList
  import opened RenderPass

  /** A JavaFX node as the canvas sees it: its runtime kind, fixed when it
      is created, and the fit geometry that the render pass overwrites in
      place. Nodes are compared by identity. */
  class ViewNode {
    const kind: Kind
    var fit: Fit

    /** A new `ImageView` or `MediaView` has no fit size yet; a `MediaView`
        preserves its aspect ratio by default, an `ImageView` does not. */
    constructor (kind: Kind)
      ensures this.kind == kind && fit == Fit(0, 0, kind == Video)
    {
      this.kind := kind;
      fit := Fit(0, 0, kind == Video);
    }
  }

  /** The effect of a caller's callback, the code the render pass runs
      before it edits the child list: the child list and the background it
      leaves behind. */
  datatype CallbackEffect = CallbackEffect(children: seq<ViewNode>, background: ViewNode)

  datatype Option<T> = None | Some(value: T)

  class DisplayCanvas {
    var cleared: bool
    var blacked: bool
    const stageView: bool
    /** The black placeholder, created once and only ever resized. */
    const blackImg: ViewNode
    var background: ViewNode
    /** The stack pane's children, bottom first. */
    var children: seq<ViewNode>
    /** The canvas's laid-out size, as `getWidth()` and `getHeight()`. */
    var width: int
    var height: int
    /** How many "unrecognised background" warnings the render pass logged. */
    ghost var warnings: nat

    ghost predicate Valid()
      reads this
    {
      Distinct(children) && blackImg.kind == Image
    }

    /** A new canvas is neither cleared nor blacked and has no children yet.
        A stack pane that has not been laid out is 0 by 0, so the default
        image background and the placeholder both start without a fit size. */
    constructor (showBorder: bool, stageView: bool)
      ensures Valid()
      ensures !IsCleared() && !IsBlacked() && IsStageView() == stageView
      ensures children == [] && width == 0 && height == 0 && warnings == 0
      ensures fresh(blackImg) && fresh(background) && background != blackImg
      ensures background.kind == Image && background.fit == Fit(width, height, false)
      ensures blackImg.fit == Fit(0, 0, false)
    {
      width, height := 0, 0;
      cleared, blacked := false, false;
      this.stageView := stageView;
      blackImg := new ViewNode(Image);
      var bg := NewImageView(0, 0);
      background := bg;
      children := [];
      warnings := 0;
    }

    /** A fresh image view sized to the given canvas size. */
    static method NewImageView(width: int, height: int) returns (r: ViewNode)
      ensures fresh(r) && r.kind == Image && r.fit == Fit(width, height, false)
    {
      r := new ViewNode(Image);
      r.fit := r.fit.(height := height);
      r.fit := r.fit.(width := width);
    }

    /** `getNewImageView`: a fresh image view sized to the canvas as it is
        now. */
    method GetNewImageView() returns (r: ViewNode)
      ensures fresh(r) && r.kind == Image && r.fit == Fit(width, height, false)
    {
      r := NewImageView(width, height);
    }

    function GetBackground(): (r: ViewNode)
      reads this
    {
      background
    }

    function IsCleared(): (r: bool)
      reads this
    {
      cleared
    }

    function IsBlacked(): (r: bool)
      reads this
    {
      blacked
    }

    function IsStageView(): (r: bool) {
      stageView
    }

    /** `setBackground` replaces the background field and nothing else: the
        children, the flags and every node's geometry stay as they were, and
        no render runs. */
    method SetBackground(node: ViewNode)
      requires Valid()
      modifies this
      ensures Valid()
      ensures GetBackground() == node
      ensures children == old(children)
      ensures cleared == old(cleared) && blacked == old(blacked)
      ensures width == old(width) && height == old(height) && warnings == old(warnings)
    {
      background := node;
    }

    /** The render pass proper, after the callback: the child-list edit for
        the current flag, then the background sized by its kind, then the
        placeholder sized to the canvas. Only the children, the background
        node, the placeholder and the warning count change. */
    method Render()
      requires Valid()
      requires AddsNoDuplicate(children, blacked, background, blackImg)
      modifies this, background, blackImg
      ensures Valid()
      ensures children == RenderChildren(old(children), blacked, background, blackImg)
      ensures background == old(background)
      ensures cleared == old(cleared) && blacked == old(blacked)
      ensures width == old(width) && height == old(height)
      ensures background.fit == SizeBackground(background.kind, old(background.fit), width, height)
      ensures blackImg.fit == SizePlaceholder(old(blackImg.fit), width, height)
      ensures warnings == old(warnings) + (if background.kind == Other then 1 else 0)
      ensures AddsNoDuplicate(children, blacked, background, blackImg)
    {
      RenderKeepsDistinct(children, blacked, background, blackImg);
      if blacked && background in children {
        BlackedRenderShowsPlaceholder(children, background, blackImg);
      }
      if blacked {
        if background in children {
          children := RemoveFirst([blackImg] + children, background);
        }
      } else {
        if background !in children {
          children := [background] + RemoveFirst(children, blackImg);
        }
      }
      match background.kind {
        case Image =>
          background.fit := background.fit.(height := height);
          background.fit := background.fit.(width := width);
        case Video =>
          background.fit := background.fit.(preserveRatio := false);
          background.fit := background.fit.(height := height);
          background.fit := background.fit.(width := width);
        case Other =>
          warnings := warnings + 1;
      }
      blackImg.fit := blackImg.fit.(height := height);
      blackImg.fit := blackImg.fit.(width := width);
    }

    /** The child list the render pass edits: the callback's, if one is
        given. */
    function ChildrenAfter(callback: Option<CallbackEffect>): (r: seq<ViewNode>)
      reads this
    {
      if callback.Some? then callback.value.children else children
    }

    /** The background the render pass sizes: the callback's, if one is
        given. */
    function BackgroundAfter(callback: Option<CallbackEffect>): (r: ViewNode)
      reads this
    {
      if callback.Some? then callback.value.background else background
    }

    /** `update`, with the posted task run at once: the callback's effect
        comes first, so the edit and the sizing see the child list and the
        background it leaves behind. */
    method Update(callback: Option<CallbackEffect>)
      requires Valid()
      requires AddsNoDuplicate(ChildrenAfter(callback), blacked, BackgroundAfter(callback), blackImg)
      modifies this, BackgroundAfter(callback), blackImg
      ensures Valid()
      ensures background == old(BackgroundAfter(callback))
      ensures children == RenderChildren(old(ChildrenAfter(callback)), blacked, background, blackImg)
      ensures cleared == old(cleared) && blacked == old(blacked)
      ensures width == old(width) && height == old(height)
      ensures background.fit == SizeBackground(background.kind, old(BackgroundAfter(callback).fit), width, height)
      ensures blackImg.fit == SizePlaceholder(old(blackImg.fit), width, height)
      ensures warnings == old(warnings) + (if background.kind == Other then 1 else 0)
      ensures AddsNoDuplicate(children, blacked, background, blackImg)
    {
      if callback.Some? {
        children := callback.value.children;
        background := callback.value.background;
      }
      Render();
    }

    /** `toggleClear` flips `cleared`, leaves `blacked` alone and renders. */
    method ToggleClear()
      requires Valid()
      requires AddsNoDuplicate(children, blacked, background, blackImg)
      modifies this, background, blackImg
      ensures Valid()
      ensures IsCleared() == Xor(old(IsCleared()), true) && IsBlacked() == old(IsBlacked())
      ensures background == old(background)
      ensures children == RenderChildren(old(children), blacked, background, blackImg)
      ensures width == old(width) && height == old(height)
      ensures background.fit == SizeBackground(background.kind, old(background.fit), width, height)
      ensures blackImg.fit == SizePlaceholder(old(blackImg.fit), width, height)
      ensures warnings == old(warnings) + (if background.kind == Other then 1 else 0)
      ensures AddsNoDuplicate(children, blacked, background, blackImg)
    {
      cleared := Xor(cleared, true);
      Update(None);
    }

    /** `toggleBlack` flips `blacked`, leaves `cleared` and the background
        alone, and renders the children for the new flag. */
    method ToggleBlack()
      requires Valid()
      requires AddsNoDuplicate(children, !blacked, background, blackImg)
      modifies this, background, blackImg
      ensures Valid()
      ensures IsBlacked() == Xor(old(IsBlacked()), true) && IsCleared() == old(IsCleared())
      ensures background == old(background)
      ensures children == RenderChildren(old(children), blacked, background, blackImg)
      ensures width == old(width) && height == old(height)
      ensures background.fit == SizeBackground(background.kind, old(background.fit), width, height)
      ensures blackImg.fit == SizePlaceholder(old(blackImg.fit), width, height)
      ensures warnings == old(warnings) + (if background.kind == Other then 1 else 0)
      ensures AddsNoDuplicate(children, blacked, background, blackImg)
    {
      blacked := Xor(blacked, true);
      Update(None);
    }

    /** The width listener: a change of width renders; setting the same
        width fires no change event and changes nothing. */
    method SetWidth(w: int)
      requires Valid()
      requires w != width ==> AddsNoDuplicate(children, blacked, background, blackImg)
      modifies this, background, blackImg
      ensures Valid()
      ensures width == w && height == old(height)
      ensures background == old(background) && cleared == old(cleared) && blacked == old(blacked)
      ensures w == old(width) ==> children == old(children) && unchanged(background, blackImg) && warnings == old(warnings)
      ensures w != old(width) ==>
        && children == RenderChildren(old(children), blacked, background, blackImg)
        && background.fit == SizeBackground(background.kind, old(background.fit), width, height)
        && blackImg.fit == SizePlaceholder(old(blackImg.fit), width, height)
        && warnings == old(warnings) + (if background.kind == Other then 1 else 0)
        && AddsNoDuplicate(children, blacked, background, blackImg)
    {
      if w != width {
        width := w;
        Update(None);
      }
    }

    /** The height listener, as the width listener. */
    method SetHeight(h: int)
      requires Valid()
      requires h != height ==> AddsNoDuplicate(children, blacked, background, blackImg)
      modifies this, background, blackImg
      ensures Valid()
      ensures height == h && width == old(width)
      ensures background == old(background) && cleared == old(cleared) && blacked == old(blacked)
      ensures h == old(height) ==> children == old(children) && unchanged(background, blackImg) && warnings == old(warnings)
      ensures h != old(height) ==>
        && children == RenderChildren(old(children), blacked, background, blackImg)
        && background.fit == SizeBackground(background.kind, old(background.fit), width, height)
        && blackImg.fit == SizePlaceholder(old(blackImg.fit), width, height)
        && warnings == old(warnings) + (if background.kind == Other then 1 else 0)
        && AddsNoDuplicate(children, blacked, background, blackImg)
    {
      if h != height {
        height := h;
        Update(None);
      }
    }
  }

  /** `toggleBlack` called `n` times on any canvas whose background and
      placeholder are not both children, a freshly built one included: the
      flag ends as its start value XOR (`n` is odd), `cleared` and the
      background are untouched, and the two layers are still never children
      together. If the canvas showed its active layer at the start, it shows
      it again after every call. */
  method ToggleBlackRepeatedly(c: DisplayCanvas, n: nat)
    requires c.Valid() && c.background != c.blackImg
    requires NeverBoth(c.children, c.background, c.blackImg)
    modifies c, c.background, c.blackImg
    ensures c.Valid() && NeverBoth(c.children, c.background, c.blackImg)
    ensures c.IsBlacked() == ToggledTimes(old(c.IsBlacked()), n)
    ensures c.IsBlacked() == Xor(old(c.IsBlacked()), n % 2 == 1)
    ensures c.IsCleared() == old(c.IsCleared()) && c.background == old(c.background)
    ensures old(ShowsActiveLayer(c.children, c.blacked, c.background, c.blackImg)) ==>
      ShowsActiveLayer(c.children, c.blacked, c.background, c.blackImg)
  {
    ghost var shown := ShowsActiveLayer(c.children, c.blacked, c.background, c.blackImg);
    var i := 0;
    while i < n
      invariant 0 <= i <= n
      invariant c.Valid() && c.background == old(c.background)
      invariant NeverBoth(c.children, c.background, c.blackImg)
      invariant c.blacked == ToggledTimes(old(c.blacked), i)
      invariant c.cleared == old(c.cleared)
      invariant shown ==> ShowsActiveLayer(c.children, c.blacked, c.background, c.blackImg)
    {
      ghost var before := c.children;
      RenderKeepsNeverBoth(before, !c.blacked, c.background, c.blackImg);
      c.ToggleBlack();
      if shown {
        ToggleThenRenderShowsActiveLayer(before, c.blacked, c.background, c.blackImg);
      }
      i := i + 1;
    }
    ToggledTimesParity(old(c.blacked), n);
  }

  /** Two renders with no change in between, as a burst of resize events
      produces: the second leaves the children, the background's fit, the
      placeholder's fit and the flags as the first left them. */
  method RenderTwice(c: DisplayCanvas) returns (once: seq<ViewNode>, bgFit: Fit, blackFit: Fit)
    requires c.Valid()
    requires AddsNoDuplicate(c.children, c.blacked, c.background, c.blackImg)
    modifies c, c.background, c.blackImg
    ensures once == RenderChildren(old(c.children), c.blacked, c.background, c.blackImg)
    ensures c.children == once
    ensures c.background.fit == bgFit && c.blackImg.fit == blackFit
    ensures bgFit == SizeBackground(c.background.kind, old(c.background.fit), c.width, c.height)
    ensures blackFit == SizePlaceholder(old(c.blackImg.fit), c.width, c.height)
    ensures c.blacked == old(c.blacked) && c.cleared == old(c.cleared) && c.background == old(c.background)
  {
    c.Render();
    once, bgFit, blackFit := c.children, c.background.fit, c.blackImg.fit;
    ghost var before := old(c.children);
    RenderChildrenIdempotent(before, c.blacked, c.background, c.blackImg);
    SizingIdempotent(c.background.kind, old(c.background.fit), old(c.blackImg.fit), c.width, c.height);
    c.Render();
  }

  /** A main canvas laid out at 800 by 600 shows its default background;
      blacking shows the placeholder, unblacking shows the same background
      again, each sized to the canvas. */
  method BlackAndBackScenario()
  {
    var c := new DisplayCanvas(false, false);
    var bg := c.background;
    c.SetWidth(800);
    c.SetHeight(600);
    assert c.children == [bg];
    BlackedRenderShowsPlaceholder([bg], bg, c.blackImg);
    c.ToggleBlack();
    assert c.IsBlacked() && c.children == [c.blackImg];
    assert c.blackImg.fit.width == 800 && c.blackImg.fit.height == 600;
    c.ToggleBlack();
    assert !c.IsBlacked() && c.children == [bg] && c.GetBackground() == bg;
    assert bg.fit == Fit(800, 600, false);
  }

  /** A video background on a canvas resized to 800 by 600 is stretched to
      800 by 600 with its aspect ratio unlocked. */
  method VideoResizeScenario()
  {
    var c := new DisplayCanvas(false, true);
    var video := new ViewNode(Video);
    c.SetBackground(video);
    c.SetWidth(800);
    c.SetHeight(600);
    assert c.children == [video];
    assert video.fit == Fit(800, 600, false);
    assert c.IsStageView();
  }

  /** Blacking a canvas before its first layout shows nothing at all: its
      children are still empty, so the blacked branch's guard fails. */
  method BlackBeforeFirstLayoutScenario()
  {
    var c := new DisplayCanvas(false, false);
    c.ToggleBlack();
    assert c.IsBlacked() && c.children == [];
    ToggleBlackRepeatedly(c, 3);
    assert !c.IsBlacked() && !c.IsCleared();
  }
}
