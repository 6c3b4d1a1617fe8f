# Quelea display canvas: a verified model

Quelea is projection software for churches. Its lyrics and stage windows draw on a
`DisplayCanvas`. That is a JavaFX stack pane whose bottom child is meant to be one of two
nodes (see "When the bottom child is not the active layer" below):

- the current background: an image view, a media view, or in principle any other node;
- a fixed black placeholder image.

The canvas keeps two flags:

- `cleared`: hides the text drawn elsewhere; it has no effect inside this class;
- `blacked`: shows the placeholder instead of the background.

The render pass runs whenever the canvas is resized or a flag is toggled. It does three
things in order:

1. When its membership guard holds, it moves the right node to index 0 of the child list.
2. It sizes the background according to its kind.
3. It sizes the placeholder to the canvas.

The model has three modules.

- `ChildList` (`child_list.dfy`) models the child-list calls of the render pass.
  - The render pass calls `contains`, `add(0, node)` and `remove(node)`.
  - `contains` is Dafny's `in`.
  - `add(0, node)` is `[node] + children`.
  - `remove(node)` is `RemoveFirst`. It compares nodes by identity.
  - `IndexOf` is a helper. It locates the occurrence that `remove` deletes. The render
    pass itself never calls `indexOf`.
  - `Distinct` is the no-duplicates predicate.
  - Lemmas proved by induction state what `IndexOf` and `RemoveFirst` return.
- `RenderPass` (`render.dfy`) states the render pass as values:
  - the child-list edit, `RenderChildren`;
  - the sizing by kind, `SizeBackground` and `SizePlaceholder`;
  - the `^= true` flag toggle, `Xor` and `ToggledTimes`.
  Its lemmas prove what the edit does from each starting state, that it is idempotent,
  that it keeps the list free of duplicates, and when the layer shown is the one the flag
  asks for.
- `Lyrics` (`display_canvas.dfy`) holds the two classes.
  - `ViewNode` is a node with a fixed kind and a mutable fit geometry.
  - `DisplayCanvas` has the source's fields. Its methods update them in place.
  - Each method's `ensures` ties the new state to the `RenderPass` functions and to the
    old state.
  - The accessors `GetBackground`, `IsCleared`, `IsBlacked` and `IsStageView` are reads
    of fields. The method contracts use them.
  - `ToggleBlackRepeatedly` calls `ToggleBlack` n times on any canvas where background
    and placeholder are not both children. A freshly built canvas qualifies. It proves the
    flag parity. It also proves the active layer stays shown whenever it was shown at the
    start.
  - `RenderTwice` proves that a second render changes nothing.
  - Three scenario methods follow a canvas through construction, layout and toggling:
    black and back, a video resize, and blacking before the first layout.

### When the bottom child is not the active layer

One would expect exactly one of background and placeholder to be the bottom child at all
times. The Javadoc of `toggleBlack` (DisplayCanvas.java:166-167) speaks of "just
displaying a black screen". The code does not guarantee that layout, because each branch
of the edit is guarded on whether the background is already a child. The model follows
the code.

- `ShowsActiveLayer` states the correct layout.
- `ToggleThenRenderShowsActiveLayer` proves a toggle keeps that layout when the layout
  already held.
- `BlackingEmptyCanvasShowsNothing` and `BlackBeforeFirstLayoutScenario` show a failure.
  A canvas blacked before its first layout keeps an empty child list.
- `ReplacedBackgroundStaysInList` shows another. After `setBackground` on a displayed
  canvas, the old node stays in the list above the new one.

## Model

| member | source | states |
|---|---|---|
| `ChildList.IndexOfIsFirstOccurrence` | Quelea/src/org/quelea/windows/lyrics/DisplayCanvas.java:110-116 | returns -1 exactly when the node is not a child; otherwise returns the position of its first occurrence, with no earlier occurrence |
| `ChildList.RemoveFirstSplices` | Quelea/src/org/quelea/windows/lyrics/DisplayCanvas.java:112-116 | `remove(node)` leaves a list without the node unchanged; otherwise it deletes exactly the first occurrence and keeps the order of the rest |
| `ChildList.RemoveFirstFromDistinct` | Quelea/src/org/quelea/windows/lyrics/DisplayCanvas.java:112-116 | on a list without duplicates, removal deletes the node entirely, keeps every other node, and leaves no duplicates |
| `RenderPass.BlackedRenderShowsPlaceholder` | Quelea/src/org/quelea/windows/lyrics/DisplayCanvas.java:109-113 | blacked, with the background a child and the placeholder not: afterwards the placeholder is at index 0, the background is gone, and the other children keep their relative order |
| `RenderPass.UnblackedRenderShowsBackground` | Quelea/src/org/quelea/windows/lyrics/DisplayCanvas.java:114-118 | not blacked, with the background absent: the result is the background followed by the old children with the placeholder cut out of its position (or all of them, if it was absent); so the background is at index 0, the placeholder is gone, and the other children keep their relative order |
| `RenderPass.UnchangedIffGuardFails` | Quelea/src/org/quelea/windows/lyrics/DisplayCanvas.java:109-119 | the edit leaves the children unchanged if and only if the membership guard fails (blacked with the background absent, or not blacked with it present) |
| `RenderPass.RenderChildrenIdempotent` | Quelea/src/org/quelea/windows/lyrics/DisplayCanvas.java:109-119 | a second render with no state change in between leaves the child list as the first one left it |
| `RenderPass.RenderKeepsDistinct` | Quelea/src/org/quelea/windows/lyrics/DisplayCanvas.java:109-119 | when the edit inserts no node that is already present, the list stays free of duplicates |
| `RenderPass.RenderKeepsNeverBoth` | Quelea/src/org/quelea/windows/lyrics/DisplayCanvas.java:109-119 | if background and placeholder are not both children, the edit for either flag adds no duplicate and leaves them still not both children |
| `RenderPass.ActiveLayerIsFixpoint` | Quelea/src/org/quelea/windows/lyrics/DisplayCanvas.java:109-119 | a list that already shows the layer the flag asks for is not changed by the edit |
| `RenderPass.ToggleThenRenderShowsActiveLayer` | Quelea/src/org/quelea/windows/lyrics/DisplayCanvas.java:109-119 | if the list showed the layer for the old flag, it shows the layer for the new flag after a flip and a render |
| `RenderPass.BlackingEmptyCanvasShowsNothing` | Quelea/src/org/quelea/windows/lyrics/DisplayCanvas.java:109-113 | blacking an empty child list leaves it empty, so neither layer shows |
| `RenderPass.ReplacedBackgroundStaysInList` | Quelea/src/org/quelea/windows/lyrics/DisplayCanvas.java:114-118 | rendering unblacked after the displayed background is replaced gives `[new, old]`: the old node is not removed |
| `RenderPass.SizingMatchesCanvas` | Quelea/src/org/quelea/windows/lyrics/DisplayCanvas.java:120-133 | image and video backgrounds end at the canvas size; a video's preserve-ratio flag ends false; an image's flag is kept; any other node's geometry is unchanged; the placeholder ends at the canvas size |
| `RenderPass.SizingIdempotent` | Quelea/src/org/quelea/windows/lyrics/DisplayCanvas.java:120-133 | sizing twice to the same canvas gives the same geometry as sizing once |
| `RenderPass.ToggledTimesParity` | Quelea/src/org/quelea/windows/lyrics/DisplayCanvas.java:169-172 | after N executions of `flag ^= true`, the flag equals its start value XOR (N is odd) |
| `Lyrics.ViewNode.constructor` | Quelea/src/org/quelea/windows/lyrics/DisplayCanvas.java:84 | a new view has fit size 0 by 0; only a media view preserves its ratio by default |
| `Lyrics.DisplayCanvas.constructor` | Quelea/src/org/quelea/windows/lyrics/DisplayCanvas.java:80-99 | not cleared and not blacked; `IsStageView()` is the argument; no children; background and placeholder are fresh distinct image views, sized to the 0-by-0 canvas |
| `Lyrics.DisplayCanvas.NewImageView` | Quelea/src/org/quelea/windows/lyrics/DisplayCanvas.java:67-73 | gives a fresh image view whose fit size is the given size |
| `Lyrics.DisplayCanvas.GetNewImageView` | Quelea/src/org/quelea/windows/lyrics/DisplayCanvas.java:67-73 | gives a fresh image view whose fit size is the canvas's current size |
| `Lyrics.DisplayCanvas.SetBackground` | Quelea/src/org/quelea/windows/lyrics/DisplayCanvas.java:60-62 | replaces only the background field; children, flags, sizes, node geometry and warnings are unchanged, and no render runs |
| `Lyrics.DisplayCanvas.Render` | Quelea/src/org/quelea/windows/lyrics/DisplayCanvas.java:109-133 | the children become `RenderChildren` of the old ones; the background is sized by its kind; the placeholder takes the canvas size; a warning is counted only for an unrecognised kind; flags, size and the background field are unchanged; afterwards the edit would again add no duplicate, so a further render may run |
| `Lyrics.DisplayCanvas.Update` | Quelea/src/org/quelea/windows/lyrics/DisplayCanvas.java:101-136 | the callback's effect comes first: the edit and the sizing start from the child list and background the callback leaves; the rest is as in `Render` |
| `Lyrics.DisplayCanvas.ToggleClear` | Quelea/src/org/quelea/windows/lyrics/DisplayCanvas.java:151-154 | `cleared` is flipped and `blacked` is unchanged; then a render with no callback runs |
| `Lyrics.DisplayCanvas.ToggleBlack` | Quelea/src/org/quelea/windows/lyrics/DisplayCanvas.java:169-172 | `blacked` is flipped; `cleared` and the background are unchanged; then a render for the new flag runs |
| `Lyrics.DisplayCanvas.SetWidth` | Quelea/src/org/quelea/windows/lyrics/DisplayCanvas.java:93-98 | a new width is stored and renders; an unchanged width fires no event and leaves everything as it was |
| `Lyrics.DisplayCanvas.SetHeight` | Quelea/src/org/quelea/windows/lyrics/DisplayCanvas.java:87-92 | a new height is stored and renders; an unchanged height fires no event and leaves everything as it was |
| `Lyrics.ToggleBlackRepeatedly` | Quelea/src/org/quelea/windows/lyrics/DisplayCanvas.java:169-172 | after n calls of `toggleBlack` on any canvas where background and placeholder are not both children (a new canvas included), `blacked` equals its start value XOR (n is odd); `cleared` and the background are unchanged; the two layers are still never children together; a canvas that showed its active layer at the start shows it again |
| `Lyrics.RenderTwice` | Quelea/src/org/quelea/windows/lyrics/DisplayCanvas.java:109-133 | a second render with no change in between leaves the children, the background's fit and the placeholder's fit as the first render left them |

## Left out

- `Platform.runLater` (line 102) is left out. The posted task runs at once, inside `Update`.
  The ordering of tasks on the JavaFX application thread is concurrency and is not modelled.
- The callback (`CanvasCallback`, lines 63-66) is code outside this class. It enters as
  the child list and background it leaves behind (`CallbackEffect`). Any other effect it
  has is not modelled.
- The `ChangeListener` registration (lines 87-98) is not modelled as a listener. A change
  of width or height is the method `SetWidth` or `SetHeight`.
- The JavaFX exception on a duplicate child is not modelled. `Distinct` in `Valid()` and
  the precondition `AddsNoDuplicate` exclude that case.
- `NoticeDrawer` and `getNoticeDrawer` (lines 85, 188-190) are left out: they are a
  collaborator with no logic in this file.
- `Utils.getImageFromColour` (lines 68, 84) is left out: it creates image content, which
  the model does not represent.
- `StackPane.setAlignment` (line 71) and `setMinHeight`/`setMinWidth` (lines 81-82) are
  layout calls into JavaFX with no visible logic, so they are left out.
- Widths and heights are JavaFX doubles. They are integers here, because the source only
  copies them.
- `LOGGER.log` (line 130) is a ghost counter `warnings`. The message text is not modelled.
- A null background is left out. `setBackground` (lines 60-62) accepts `null`, but the
  `ViewNode` type is non-null. With a null background, a blacked render would log the
  warning at line 130. An unblacked render would remove the placeholder (line 116), and
  then JavaFX would reject `add(0, null)` at line 117, so the sizing would never run.
- The `showBorder` argument is accepted and unused, as in the source.
- The effect of `cleared` on text drawing lives in other classes, so it is not modelled.
