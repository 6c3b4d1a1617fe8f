/** The value-level rules of the display canvas's render pass
    (`DisplayCanvas.update`): how the child list is edited, how each kind of
    background is sized to the canvas, and how the `^= true` toggles of the
    `cleared` and `blacked` flags compose. The class in module Lyrics applies
    these rules to its mutable state. */
module RenderPass {
  import opened ChildList

  /** The runtime class of a background node: an `ImageView`, a `MediaView`,
      or any other JavaFX node. */
  datatype Kind = Image | Video | Other

  /** The fit geometry of an `ImageView` or `MediaView`: fit width, fit
      height and the preserve-ratio flag. The source copies the canvas size
      into these, so the sizes stay opaque integers. */
  datatype Fit = Fit(width: int, height: int, preserveRatio: bool)

  // ----------------------------------------------------------------------
  // The child-list edit
  // ----------------------------------------------------------------------

  /** The edit the render pass makes to the canvas's children. When blacked,
      and only when the background is a child, the placeholder is inserted
      at index 0 and then the background is removed. When not blacked, and
      only when the background is not a child, the placeholder is removed
      and then the background is inserted at index 0. */
  function RenderChildren<T(==)>(children: seq<T>, blacked: bool, background: T, blackImg: T): (r: seq<T>)
  {
    if blacked then
      if background in children then RemoveFirst([blackImg] + children, background) else children
    else
      if background !in children then [background] + RemoveFirst(children, blackImg) else children
  }

  /** The edit inserts no node that is already a child. JavaFX throws on a
      duplicate child; the model excludes that case instead of modelling the
      exception. Only the blacked branch can insert a duplicate: the
      unblacked branch inserts the background only when it is absent. */
  predicate AddsNoDuplicate<T(==)>(children: seq<T>, blacked: bool, background: T, blackImg: T) {
    Distinct(children) && (blacked && background in children ==> blackImg !in children)
  }

  /** The layer the flag asks for is the bottom child, and the other layer
      is not a child at all. */
  predicate ShowsActiveLayer<T(==)>(children: seq<T>, blacked: bool, background: T, blackImg: T) {
    if blacked then |children| > 0 && children[0] == blackImg && background !in children
    else |children| > 0 && children[0] == background && blackImg !in children
  }

  /** Blacked with the background showing: the placeholder becomes the
      bottom child, the background leaves the list, and every other child
      keeps its relative order. */
  lemma {:induction false} BlackedRenderShowsPlaceholder<T>(children: seq<T>, background: T, blackImg: T)
    requires Distinct(children) && background in children && blackImg !in children
    ensures var r := RenderChildren(children, true, background, blackImg);
      var i := IndexOf(children, background);
      && 0 <= i < |children|
      && r == [blackImg] + children[..i] + children[i + 1..]
      && ShowsActiveLayer(r, true, background, blackImg)
  {
    var s := [blackImg] + children;
    assert s[0] != background && s[1..] == children;
    assert RenderChildren(children, true, background, blackImg) == [blackImg] + RemoveFirst(children, background);
    RemoveFirstSplices(children, background);
    RemoveFirstFromDistinct(children, background);
  }

  /** Not blacked with the background absent: the placeholder leaves the
      list, the background becomes the bottom child, and every other child
      keeps its relative order. */
  lemma {:induction false} UnblackedRenderShowsBackground<T>(children: seq<T>, background: T, blackImg: T)
    requires Distinct(children) && background !in children && background != blackImg
    ensures var r := RenderChildren(children, false, background, blackImg);
      var j := IndexOf(children, blackImg);
      && (blackImg in children ==>
            0 <= j < |children| && r == [background] + children[..j] + children[j + 1..])
      && (blackImg !in children ==> r == [background] + children)
      && ShowsActiveLayer(r, false, background, blackImg)
  {
    RemoveFirstSplices(children, blackImg);
    RemoveFirstFromDistinct(children, blackImg);
  }

  /** The membership guards decide whether the list changes at all: the
      edit leaves the children as they are exactly when the guard fails,
      that is when blacked with the background absent or not blacked with
      the background present. */
  lemma UnchangedIffGuardFails<T>(children: seq<T>, blacked: bool, background: T, blackImg: T)
    requires AddsNoDuplicate(children, blacked, background, blackImg)
    ensures RenderChildren(children, blacked, background, blackImg) == children
        <==> (blacked && background !in children) || (!blacked && background in children)
  {
  }

  /** Running the edit a second time with nothing changed in between
      changes nothing more. */
  lemma {:induction false} RenderChildrenIdempotent<T>(children: seq<T>, blacked: bool, background: T, blackImg: T)
    requires Distinct(children)
    ensures var once := RenderChildren(children, blacked, background, blackImg);
      RenderChildren(once, blacked, background, blackImg) == once
  {
    var once := RenderChildren(children, blacked, background, blackImg);
    if blacked && background in children && background != blackImg {
      var s := [blackImg] + children;
      assert s[0] != background;
      assert s[1..] == children;
      assert RemoveFirst(s, background) == [blackImg] + RemoveFirst(children, background);
      RemoveFirstFromDistinct(children, background);
      assert background !in once;
    } else if blacked && background in children {
      assert once == children;
    }
  }

  /** The edit keeps the child list free of duplicates. */
  lemma RenderKeepsDistinct<T>(children: seq<T>, blacked: bool, background: T, blackImg: T)
    requires AddsNoDuplicate(children, blacked, background, blackImg)
    ensures Distinct(RenderChildren(children, blacked, background, blackImg))
  {
    if blacked && background in children {
      var s := [blackImg] + children;
      assert Distinct(s) by {
        forall a, b | 0 <= a < b < |s| ensures s[a] != s[b] {
          if a > 0 { assert s[a] == children[a - 1]; }
          assert s[b] == children[b - 1];
        }
      }
      RemoveFirstFromDistinct(s, background);
    } else if !blacked && background !in children {
      RemoveFirstFromDistinct(children, blackImg);
    }
  }

  /** Background and placeholder are never children together, and no node
      occurs twice. A new canvas has no children, so this holds from
      construction on; the edit for either flag then adds no duplicate. */
  predicate NeverBoth<T(==)>(children: seq<T>, background: T, blackImg: T) {
    Distinct(children) && !(background in children && blackImg in children)
  }

  /** The edit for either flag keeps background and placeholder from being
      children together, and adds no duplicate on the way. */
  lemma {:induction false} RenderKeepsNeverBoth<T>(children: seq<T>, blacked: bool, background: T, blackImg: T)
    requires NeverBoth(children, background, blackImg) && background != blackImg
    ensures AddsNoDuplicate(children, blacked, background, blackImg)
    ensures NeverBoth(RenderChildren(children, blacked, background, blackImg), background, blackImg)
  {
    RenderKeepsDistinct(children, blacked, background, blackImg);
    if blacked && background in children {
      BlackedRenderShowsPlaceholder(children, background, blackImg);
    } else if !blacked && background !in children {
      UnblackedRenderShowsBackground(children, background, blackImg);
    }
  }

  /** A list that already shows the active layer is a fixed point of the
      edit. */
  lemma ActiveLayerIsFixpoint<T>(children: seq<T>, blacked: bool, background: T, blackImg: T)
    requires ShowsActiveLayer(children, blacked, background, blackImg)
    ensures RenderChildren(children, blacked, background, blackImg) == children
  {
  }

  /** Flipping `blacked` on a list that shows the active layer, then
      rendering, again shows the active layer: toggling black and back
      alternates between the placeholder and the same background. */
  lemma ToggleThenRenderShowsActiveLayer<T>(children: seq<T>, blacked: bool, background: T, blackImg: T)
    requires Distinct(children) && background != blackImg
    requires ShowsActiveLayer(children, !blacked, background, blackImg)
    ensures ShowsActiveLayer(RenderChildren(children, blacked, background, blackImg), blacked, background, blackImg)
  {
    if blacked {
      assert children[0] == background;
      BlackedRenderShowsPlaceholder(children, background, blackImg);
    } else {
      UnblackedRenderShowsBackground(children, background, blackImg);
    }
  }

  /** Blacking a canvas whose children are still empty, as they are after
      construction, shows neither layer: the guard needs the background to
      be a child already. */
  lemma BlackingEmptyCanvasShowsNothing<T>(background: T, blackImg: T)
    ensures RenderChildren([], true, background, blackImg) == []
    ensures !ShowsActiveLayer(RenderChildren([], true, background, blackImg), true, background, blackImg)
  {
  }

  /** Replacing a displayed background and rendering unblacked puts the new
      background at the bottom and leaves the old node in the list above
      it, so the new background does not show alone. */
  lemma ReplacedBackgroundStaysInList<T>(old_background: T, background: T, blackImg: T)
    requires background != old_background && old_background != blackImg
    ensures RenderChildren([old_background], false, background, blackImg) == [background, old_background]
  {
    assert [old_background][1..] == [];
    assert RemoveFirst([old_background], blackImg) == [old_background];
  }

  // ----------------------------------------------------------------------
  // Sizing to the canvas
  // ----------------------------------------------------------------------

  /** How the render pass sizes the background, by its kind: an image is
      stretched to the canvas, a video also stops preserving its aspect
      ratio, and any other node is left as it is (the pass logs a warning
      instead). */
  function SizeBackground(kind: Kind, fit: Fit, width: int, height: int): (r: Fit) {
    match kind
    case Image => fit.(width := width, height := height)
    case Video => Fit(width, height, false)
    case Other => fit
  }

  /** How the render pass sizes the black placeholder, whatever is shown. */
  function SizePlaceholder(fit: Fit, width: int, height: int): (r: Fit) {
    fit.(width := width, height := height)
  }

  /** An image or video background ends exactly the canvas size; a video
      ends with its aspect ratio unlocked; an image keeps its flag; any
      other node keeps its geometry. The placeholder ends the canvas size. */
  lemma SizingMatchesCanvas(kind: Kind, fit: Fit, blackFit: Fit, width: int, height: int)
    ensures var r := SizeBackground(kind, fit, width, height);
      && (kind != Other ==> r.width == width && r.height == height)
      && (kind == Image ==> r.preserveRatio == fit.preserveRatio)
      && (kind == Video ==> !r.preserveRatio)
      && (kind == Other ==> r == fit)
    ensures var b := SizePlaceholder(blackFit, width, height);
      b.width == width && b.height == height && b.preserveRatio == blackFit.preserveRatio
  {
  }

  /** Sizing twice to the same canvas gives the same geometry as sizing
      once. */
  lemma SizingIdempotent(kind: Kind, fit: Fit, blackFit: Fit, width: int, height: int)
    ensures var once := SizeBackground(kind, fit, width, height);
      SizeBackground(kind, once, width, height) == once
    ensures var once := SizePlaceholder(blackFit, width, height);
      SizePlaceholder(once, width, height) == once
  {
  }

  // ----------------------------------------------------------------------
  // The flags
  // ----------------------------------------------------------------------

  /** Java's `^` on booleans. */
  function Xor(a: bool, b: bool): (r: bool) {
    a != b
  }

  /** The flag after `n` executions of `flag ^= true`. */
  function ToggledTimes(start: bool, n: nat): (r: bool) {
    if n == 0 then start else Xor(ToggledTimes(start, n - 1), true)
  }

  /** After `n` toggles a flag equals its start value exactly when `n` is
      even. */
  lemma {:induction false} ToggledTimesParity(start: bool, n: nat)
    ensures ToggledTimes(start, n) == Xor(start, n % 2 == 1)
  {
    if n > 0 {
      ToggledTimesParity(start, n - 1);
    }
  }
}
