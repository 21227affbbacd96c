# Select render node, immediate layout and image tilesets in Dafny

This project models three sequential parts of mini2Dx.

**The `Select` widget's render node.** The widget shows the selected option between a left and a right stepper button. Each button has its own NORMAL / HOVER / ACTION state. The render node handles `setState`, `mouseDown`, `mouseMoved` and `mouseUp`, and releasing a pressed button steps the selection back or forward. The node also:
- measures its preferred content width and height;
- chooses its layout ruleset (flex when the element has a flex specification, pass-through otherwise) and rebuilds it when it no longer matches;
- writes its geometry back onto the element under a flex ruleset only;
- resolves its six sub-styles, each falling back to the theme's default style;
- chooses the text colour of the selected label, and fails fatally when none can be found.

**`ImmediateLayoutRuleset`.** This is the pass-through layout strategy. An element's preferred position and size are its own x, y, width and height. The ruleset places each child at the parent's top-left padding plus the child's offsets.

**`ImageTilesetSource`.** This is a tileset cut from one image. The model covers:
- how many whole tiles fit across and down, given the margin and spacing (counted once, then cached);
- the grid of tiles the constructor builds;
- where each tile image is cut from;
- the lazily created property map;
- the load-once and dispose texture state;
- the atlas lookup that falls back to the image path without its extension.

Files:
- `wrappers.dfy`: `Option`.
- `ui_model.dfy`: the types shared by the UI modules: node states, rectangles, padding/margin boxes, the logical element, hit boxes, and the child render nodes a ruleset lays out.
- `immediate_layout.dfy`: `ImmediateLayoutRuleset`.
- `select_interaction.dfy`: the two-button protocol as pure transitions, plus lemmas about whole input sequences.
- `select_render_node.dfy`: the Select element, styles, the layout-ruleset choice, sizing, and the `SelectRenderNode` class. Its `SetState`, `MouseDown`, `MouseUp` and `MouseMoved` methods are proved to change the node's interaction fields exactly as the matching transition does.
- `image_tileset_source.dfy`: `ImageTilesetSource`, the tile counting and cutting functions, and lemmas about them.

Geometry is `real`: the Java code uses `float`, and the modelled code only adds, subtracts and compares. The Java integer arithmetic of the tileset is modelled as unbounded `int`.

Behaviour of the code worth knowing, which the model keeps:
- `mouseMoved` does not check whether the element is enabled, so a disabled Select still hovers.
- The preferred content width is the ruleset width minus padding and margin, with no clamping. It is negative when padding and margin exceed a positive ruleset width.
- An empty flex specification (`""`) behaves differently at build time and at rebuild time. A pass-through ruleset still matches it, so no rebuild happens (`SelectRender.EmptySpecification`). But a node built when the specification is already `""` parses a flex ruleset from it.

## Model

| member | source | states |
|---|---|---|
| ImmediateLayout.ImmediateLayoutRuleset.Layout | ui/src/main/java/org/mini2Dx/ui/layout/ImmediateLayoutRuleset.java:22-36 | every child is laid out exactly once, in sequence order; each child then included in layout sits at the parent's padding-left/padding-top plus its own x/y offset; every other child keeps its previous relative position |
| ImmediateLayout.ImmediateLayoutRuleset.Equals | ui/src/main/java/org/mini2Dx/ui/layout/ImmediateLayoutRuleset.java:88-97 | the ruleset matches a specification exactly when the specification is absent or empty |
| ImmediateLayout.PassThrough | ui/src/main/java/org/mini2Dx/ui/layout/ImmediateLayoutRuleset.java:38-139 | the preferred relative x/y, width and height are the element's current x, y, width and height, read at call time; each of the four rules yields the same value as the matching getter; the ruleset is never hidden by input source and is not flex; its size rules are never auto-sized |
| ImmediateLayout.ImmediateLayoutRuleset.constructor | ui/src/main/java/org/mini2Dx/ui/layout/ImmediateLayoutRuleset.java:13-20 | the ruleset is bound to the element it passes geometry through from |
| UiModel.RenderNode.Layout | ui/src/main/java/org/mini2Dx/ui/layout/ImmediateLayoutRuleset.java:29 | a child's own layout is recorded in the pass and leaves its position relative to the parent to the parent |
| UiModel.UiElement.Set | ui/src/main/java/org/mini2Dx/ui/render/SelectRenderNode.java:73 | writing geometry back sets the element's x, y, width and height and leaves its layout specification alone |
| SelectRender.SelectRenderNode.constructor | ui/src/main/java/org/mini2Dx/ui/render/SelectRenderNode.java:41-56 | a new node starts with both buttons and itself NORMAL, not hidden by its layout rule, and with the ruleset built for the element's current specification |
| SelectRender.SelectRenderNode.InitLayoutRuleset | ui/src/main/java/org/mini2Dx/ui/render/SelectRenderNode.java:58-64 | the ruleset becomes flex, parsed from the specification, when one is present; otherwise it becomes a fresh pass-through ruleset over the element |
| SelectRender.BuiltRulesetMatches | ui/src/main/java/org/mini2Dx/ui/render/SelectRenderNode.java:58-70 | a freshly built ruleset matches the specification it was built for, and is flex exactly when a specification is present |
| SelectRender.EmptySpecification | ui/src/main/java/org/mini2Dx/ui/render/SelectRenderNode.java:58-70 | a pass-through ruleset still matches an empty specification, while building for an empty specification gives a flex ruleset |
| SelectRender.SelectRenderNode.Layout | ui/src/main/java/org/mini2Dx/ui/render/SelectRenderNode.java:66-75 | the ruleset is rebuilt exactly when it no longer matches the element's specification, and matches it afterwards; the outer area is written back onto the element only under a flex ruleset, and the element is untouched otherwise |
| SelectRender.SelectRenderNode.Update | ui/src/main/java/org/mini2Dx/ui/render/SelectRenderNode.java:78-84 | the left button moves to the content origin; the right button moves so that its right edge meets the content's right edge; sizes are unchanged |
| SelectRender.SelectRenderNode.TextColour | ui/src/main/java/org/mini2Dx/ui/render/SelectRenderNode.java:95-168 | nothing is drawn without a selected option; otherwise the colour is chosen from the enabled or the disabled override and label style, according to whether the element is enabled; an unresolved label style fails whatever the override |
| SelectRender.ChooseTextColour | ui/src/main/java/org/mini2Dx/ui/render/SelectRenderNode.java:108-122 | with a resolved label style: the element's override wins, then the label style's colour; with neither, a fatal error naming the element; a chosen colour always comes from one of those two, never from a default; an unresolved label style fails whatever the override, because its font is read next |
| SelectRender.ResolvedStylesDecideColour | ui/src/main/java/org/mini2Dx/ui/render/SelectRenderNode.java:400-413 | once the label style has been resolved through the fallback, the colour choice can fail only when both the override and the resolved style's colour are missing |
| SelectRender.SelectRenderNode.SetState | ui/src/main/java/org/mini2Dx/ui/render/SelectRenderNode.java:214-238 | the node's state and both button states move exactly as AfterSetState says |
| SelectInteraction.AfterSetState | ui/src/main/java/org/mini2Dx/ui/render/SelectRenderNode.java:215-236 | HOVER and NORMAL move each button that is not in ACTION to that state; a button in ACTION stays in ACTION; setting ACTION leaves both buttons unchanged |
| SelectInteraction.TargetAt | ui/src/main/java/org/mini2Dx/ui/render/SelectRenderNode.java:248-252 | a point is on the left button when the left box contains it; it is on the right button only when the left box does not contain it and the right box does |
| SelectRender.SelectRenderNode.MouseDown | ui/src/main/java/org/mini2Dx/ui/render/SelectRenderNode.java:240-258 | the states move as AfterMouseDown says for the node's render inclusion, the element's enabled flag and the hit-tested point; the result says whether the pointer was captured |
| SelectInteraction.AfterMouseDown | ui/src/main/java/org/mini2Dx/ui/render/SelectRenderNode.java:241-257 | a node that is not rendered or not enabled, or a point on neither button, captures nothing and changes nothing; otherwise the node enters ACTION and exactly the button under the point enters ACTION, the left button tested first |
| SelectRender.SelectRenderNode.MouseUp | ui/src/main/java/org/mini2Dx/ui/render/SelectRenderNode.java:260-275 | the buttons move as AfterMouseUp says; the element receives the previous-option or next-option call that the release performs, if any, and then an end-of-action event carrying the mouse button and coordinates, in every case |
| SelectInteraction.AfterMouseUp | ui/src/main/java/org/mini2Dx/ui/render/SelectRenderNode.java:261-268 | the selection steps back exactly when the left button was in ACTION, and that button returns to NORMAL; otherwise it steps forward exactly when the right button was in ACTION, and that button returns to NORMAL; otherwise nothing changes; at most one step happens |
| SelectRender.SelectRenderNode.MouseMoved | ui/src/main/java/org/mini2Dx/ui/render/SelectRenderNode.java:277-309 | the states move as AfterMouseMoved says for the inner-area test and the hit-tested point; the result is that of the inner-area test |
| SelectInteraction.AfterMouseMoved | ui/src/main/java/org/mini2Dx/ui/render/SelectRenderNode.java:278-309 | handled exactly when the point is inside the inner area; the node becomes HOVER inside and NORMAL outside; a button in ACTION never changes; any other button becomes HOVER when it is under the point inside the node, and NORMAL otherwise |
| SelectInteraction.StepsAtMostReleases | ui/src/main/java/org/mini2Dx/ui/render/SelectRenderNode.java:214-309 | over any input sequence, the number of selection steps is at most the number of releases |
| SelectInteraction.PressedUntilRelease | ui/src/main/java/org/mini2Dx/ui/render/SelectRenderNode.java:214-309 | with no release in between, a button in ACTION stays in ACTION through any state changes, moves and presses, and the selection does not change |
| SelectInteraction.NeverPressedWithoutPress | ui/src/main/java/org/mini2Dx/ui/render/SelectRenderNode.java:214-236 | state changes and pointer moves never put a button into ACTION and never step the selection |
| SelectInteraction.PressThenReleaseStepsOnce | ui/src/main/java/org/mini2Dx/ui/render/SelectRenderNode.java:240-275 | on a node with no button in ACTION: an accepted press on one button, any moves and state changes, then one release step the selection exactly once (back for the left button, forward for the right) and leave neither button in ACTION |
| SelectInteraction.MissedPressStepsNothing | ui/src/main/java/org/mini2Dx/ui/render/SelectRenderNode.java:240-268 | a press that is refused or misses both buttons, followed by a release, changes nothing and steps nothing |
| SelectRender.SelectRenderNode.BeginAction | ui/src/main/java/org/mini2Dx/ui/render/SelectRenderNode.java:311-314 | the element's action listeners receive one begin event |
| SelectRender.SelectRenderNode.EndAction | ui/src/main/java/org/mini2Dx/ui/render/SelectRenderNode.java:316-319 | the element's action listeners receive one end event |
| SelectRender.SelectRenderNode.DeterminePreferredContentWidth | ui/src/main/java/org/mini2Dx/ui/render/SelectRenderNode.java:321-338 | both buttons take the style's button width; the result and the hidden-by-layout-rule flag are those of PreferredContentWidth for the ruleset's answers |
| SelectRender.PreferredContentWidth | ui/src/main/java/org/mini2Dx/ui/render/SelectRenderNode.java:326-337 | 0 when hidden by input source, with the hidden-by-layout-rule flag kept; when not hidden by input source, hidden by the layout rule exactly when the ruleset width is at most 0, in which case the result is 0; otherwise the result plus horizontal padding and margin equals the ruleset width |
| SelectRender.SelectRenderNode.DeterminePreferredContentHeight | ui/src/main/java/org/mini2Dx/ui/render/SelectRenderNode.java:340-371 | the label height is the measured one; the result is PreferredContentHeight for the style and the ruleset's height rule; both buttons take that height |
| SelectRender.PreferredContentHeight | ui/src/main/java/org/mini2Dx/ui/render/SelectRenderNode.java:357-367 | the result is at least the label height; plus vertical padding and margin, it reaches the minimum height when one is set, and the height rule's height when the rule is not auto-sized; it is the least such value, since it equals one of those three bounds |
| SelectRender.SelectRenderNode.DetermineXOffset | ui/src/main/java/org/mini2Dx/ui/render/SelectRenderNode.java:373-376 | under a pass-through ruleset, the x offset is the element's own x |
| SelectRender.SelectRenderNode.DetermineYOffset | ui/src/main/java/org/mini2Dx/ui/render/SelectRenderNode.java:378-381 | under a pass-through ruleset, the y offset is the element's own y |
| SelectRender.SelectRenderNode.DetermineStyleRule | ui/src/main/java/org/mini2Dx/ui/render/SelectRenderNode.java:383-429 | the Select's style comes from the theme; each of the six sub-styles is looked up by its identifier, or by the default style identifier when it is unset |
| SelectRender.SubStyleId | ui/src/main/java/org/mini2Dx/ui/render/SelectRenderNode.java:386-392 | a set sub-style identifier is used as is; an unset one becomes the default style identifier |
| ImageTileset.ImageTilesetSource.constructor | tiled/src/main/java/org/mini2Dx/tiled/tileset/ImageTilesetSource.java:49-67 | both counts are computed and cached; the grid has exactly TilesAcross × TilesDown cells, and cell (x, y) holds the tile whose id is the tile id of (x, y) with first gid 0; no properties, tile images or texture yet |
| ImageTileset.TilesFrom | tiled/src/main/java/org/mini2Dx/tiled/tileset/ImageTilesetSource.java:191-200 | no tile fits exactly when the margin lies past the last possible tile origin |
| ImageTileset.TilesFromFit | tiled/src/main/java/org/mini2Dx/tiled/tileset/ImageTilesetSource.java:194 | every counted tile k has its origin, margin + k·(tile size + spacing), at or before the image size less one tile |
| ImageTileset.TilesFromMaximal | tiled/src/main/java/org/mini2Dx/tiled/tileset/ImageTilesetSource.java:194-196 | the first tile not counted would start past the image size less one tile, so the count is the largest that fits |
| ImageTileset.CountTiles | tiled/src/main/java/org/mini2Dx/tiled/tileset/ImageTilesetSource.java:193-196 | the counting loop returns the number of tiles that fit |
| ImageTileset.ImageTilesetSource.GetWidthInTiles | tiled/src/main/java/org/mini2Dx/tiled/tileset/ImageTilesetSource.java:190-200 | returns the number of tiles that fit across and caches it; a cached value is never recomputed or changed |
| ImageTileset.ImageTilesetSource.GetHeightInTiles | tiled/src/main/java/org/mini2Dx/tiled/tileset/ImageTilesetSource.java:202-212 | returns the number of tiles that fit down, using height, tile height, spacing and margin, and caches it; a cached value is never recomputed or changed |
| ImageTileset.ImageTilesetSource.CutTiles | tiled/src/main/java/org/mini2Dx/tiled/tileset/ImageTilesetSource.java:168-178 | the nested loops leave the tile-image map as CutFrom gives it: one cut per cell, column by column, filed under the cell's tile id |
| ImageTileset.CutAllTiles | tiled/src/main/java/org/mini2Dx/tiled/tileset/ImageTilesetSource.java:168-178 | after cutting, every cell's tile id has an image and earlier keys remain; every image added or changed is a tile-sized rectangle that starts at or past the margin and ends within the image's width and height; with distinct tile ids, each cell's id maps to exactly that cell's rectangle |
| ImageTileset.CutRegionWithinImage | tiled/src/main/java/org/mini2Dx/tiled/tileset/ImageTilesetSource.java:171-174 | tile (x, y) is cut at (margin + x·spacing + x·tileWidth, margin + y·spacing + y·tileHeight); for every grid cell, that rectangle starts at or past the margin and ends within the image's width and height, so for a non-negative margin it lies within the image |
| ImageTileset.GridIsMaximal | tiled/src/main/java/org/mini2Dx/tiled/tileset/ImageTilesetSource.java:191-212 | one more column, or one more row, would be cut past the image's right or bottom edge |
| ImageTileset.ImageTilesetSource.LoadTextureFromPixmap | tiled/src/main/java/org/mini2Dx/tiled/tileset/ImageTilesetSource.java:100-166 | a no-op once a texture region exists; otherwise the source owns a backing texture, has a texture region, and has cut its tiles |
| ImageTileset.ImageTilesetSource.LoadTextureFromAtlas | tiled/src/main/java/org/mini2Dx/tiled/tileset/ImageTilesetSource.java:132-154 | a no-op once a texture region exists; a missing atlas region fails the load and changes nothing; otherwise the tiles are cut, and a backing texture is created only for a transparent colour |
| ImageTileset.AtlasRegionName | tiled/src/main/java/org/mini2Dx/tiled/tileset/ImageTilesetSource.java:137-143 | the image path is used when the atlas has it; otherwise, only for a path containing '.', the path up to its last '.' is used when the atlas has that; otherwise no region is found |
| ImageTileset.StripExtension | tiled/src/main/java/org/mini2Dx/tiled/tileset/ImageTilesetSource.java:138-140 | the stripped name, a '.', and a suffix without '.' make up the path again |
| ImageTileset.LastDot | tiled/src/main/java/org/mini2Dx/tiled/tileset/ImageTilesetSource.java:138 | the result is -1 or the index of a '.'; no '.' comes after it |
| ImageTileset.ImageTilesetSource.Dispose | tiled/src/main/java/org/mini2Dx/tiled/tileset/ImageTilesetSource.java:328-344 | afterwards no texture is loaded and no backing texture is owned |
| ImageTileset.ImageTilesetSource.ContainsProperty | tiled/src/main/java/org/mini2Dx/tiled/tileset/ImageTilesetSource.java:243-248 | holds exactly when the property map exists and has the key; false before any property is set |
| ImageTileset.ImageTilesetSource.GetProperty | tiled/src/main/java/org/mini2Dx/tiled/tileset/ImageTilesetSource.java:250-255 | a value is present exactly when the property is contained, and it is the stored value; absent before any property is set |
| ImageTileset.ImageTilesetSource.SetProperty | tiled/src/main/java/org/mini2Dx/tiled/tileset/ImageTilesetSource.java:257-262 | the map exists afterwards; the key holds the new value; every other key reads as before |
| ImageTileset.ImageTilesetSource.IsTextureLoaded | tiled/src/main/java/org/mini2Dx/tiled/tileset/ImageTilesetSource.java:180-183 | a texture is loaded exactly while a texture region is held; the load methods set that and Dispose clears it |
| ImageTileset.ImageTilesetSource.GetTileImage | tiled/src/main/java/org/mini2Dx/tiled/tileset/ImageTilesetSource.java:185-188 | an image is returned exactly for a tile id that has been cut, and it is the image stored for that id; none otherwise |
| ImageTileset.ImageTilesetSource.GetTileByPosition | tiled/src/main/java/org/mini2Dx/tiled/tileset/ImageTilesetSource.java:214-217 | a grid position gives the tile carrying that cell's tile id; a position outside the grid gives none |

## Left out

- Drawing is not modelled. This covers the drawing in `renderElement` (background renderers, fonts, `drawString`, the rounded centring of button text), glyph-layout measurement, and `ImageTilesetSource.drawTile`/`drawTileset`. The measured label height is an input of `DeterminePreferredContentHeight`; button width comes from the style.
- ImmediateLayout.ImmediateLayoutRuleset.Layout: requires the children to be distinct nodes, as a render tree's child list is. The Java loop would lay out a repeated child twice.
- Render-time smoothing is not modelled: `interpolate` and the hit boxes' `preUpdate`.
- `FlexLayoutRuleset` is not part of this model. Its parser is a function parameter. A flex ruleset's answers (preferred x/y/width/height, auto-size of its height rule, hidden by input source) are opaque values fixed when it is built, not values worked out per layout state. Parse failures are not modelled.
- SelectRender.LayoutRuleset.Equals: a flex ruleset is assumed to match exactly the specification string it was built from, because `FlexLayoutRuleset.equals` is not part of this model.
- `RenderNode`, the base class, is not part of this model. The following are taken from it as given:
  - the outer area its `layout` computes (a parameter of `Layout`);
  - the node's own state that its `setState` records;
  - `isIncludedInRender`, `isIncludedInLayout` and `innerArea` (fields it maintains);
  - the `style` it stores from `determineStyleRule` (a constructor parameter).

  A child's own `layout` promises nothing about its offsets or inclusion.
- `Select` (`previousOption`, `nextOption`, listener notification) is not part of this model. Each call the node makes is appended to the element's event log; how the selection itself moves is not modelled. Event-trigger parameters are recorded as values, not pooled objects. A mouse click's trigger is recorded as the button number.
- `UiTheme` is not part of this model. The theme is a value already resolved for the screen size, with total style lookups. `DEFAULT_STYLE_ID` is taken to be `"default"`. `CollisionBox.contains` is taken to be a closed, axis-aligned rectangle test.
- Select's inheritance from `UiElement` is modelled as composition (`Select.base`).
- Texture and pixmap loading are reduced to two flags: "texture region present" and "backing texture owned". Not modelled: the file-type switch of the `FileHandle` overload (all five file types load the same way), `getDependencies`, `modifyPixmapWithTransparentColor` (a pixel loop with float colour conversion; its blue channel divides by 155 where the other channels divide by 255), and the per-tile `Tile.dispose` calls in `dispose`.
- ImageTileset.ImageTilesetSource.LoadTextureFromPixmap: stands for both the `FileHandle` and the `AssetManager` overloads, which differ only in how the pixmap is read.
- `getTileId`, `getTileX` and `getTileY` belong to the tileset base class, which is not part of this model. `getTileId` is a function parameter of the constructor. `getTile(tileId, firstGid)` is left out because it only indexes the grid with `getTileX`/`getTileY`.
- ImageTileset.CutAllTiles: gives the exact image per cell only when tile ids are distinct. Without that, an image may be overwritten by a later cell with the same id, and the lemma then states only that the image is a tile-sized rectangle inside the image.
- ImageTileset.CountTiles: requires a positive step (tile size plus spacing), or a margin past the last possible origin. The Java loop never ends when the step is 0; with a negative step it ends only through 32-bit wrap-around, which is not modelled.
- Java's 32-bit `int` overflow in the tile arithmetic is not modelled.
- ImageTileset.ImageTilesetSource.LoadTextureFromAtlas: a missing region makes the Java code fail with an exception while wrapping the null region. The model returns `RegionNotFound` in its place, with no state changed, as in the Java code.
- ImageTileset.ImageTilesetSource.GetTileByPosition: a position outside the grid makes the Java array access throw. The model returns no tile in its place.
- `setProperty` with a null value is not modelled: property values are strings.
- The trivial accessors (name, image path, transparent colour, width/height/tile size/spacing/margin getters, `getProperties`) are fields or constants of the class.
