/**
 * A tileset cut from one image: how many tiles fit across and down given
 * the margin and spacing, where each tile is cut from, the lazily created
 * property map, the load-once texture state, and the atlas region lookup.
 */
module ImageTileset {
  import opened Wrappers

  /** A tile of the grid, known by its tile id. */
  datatype Tile = Tile(tileId: int)

  /** A tile image: the rectangle of the tileset image it is cut from. */
  datatype Sprite = Sprite(x: int, y: int, width: int, height: int)

  /** How a texture load ended. */
  datatype LoadOutcome =
    | AlreadyLoaded
    | Loaded
    | RegionNotFound   // the atlas has no region for the image path: the load fails

  /**
   * The number of tiles placed from `start` every `step` pixels while the
   * tile's origin stays at most `limit`: the k with start + k*step <= limit.
   * Counting stops only when the step is positive or nothing fits at all.
   */
  function TilesFrom(start: int, limit: int, step: int): (r: nat)
    requires step > 0 || start > limit
    ensures r == 0 <==> start > limit
    decreases limit - start
  {
    if start > limit then 0 else 1 + TilesFrom(start + step, limit, step)
  }

  /** Every counted tile fits: the k-th tile's origin is at most the limit. */
  lemma {:induction false} TilesFromFit(start: int, limit: int, step: int, k: int)
    requires step > 0 || start > limit
    requires 0 <= k < TilesFrom(start, limit, step)
    ensures start + k * step <= limit
    decreases limit - start
  {
    if k > 0 {
      TilesFromFit(start + step, limit, step, k - 1);
      assert k * step == (k - 1) * step + step;
    }
  }

  /** The count is maximal: the first tile not counted would start past the limit. */
  lemma {:induction false} TilesFromMaximal(start: int, limit: int, step: int)
    requires step > 0 || start > limit
    ensures start + TilesFrom(start, limit, step) * step > limit
    decreases limit - start
  {
    if start <= limit {
      var n := TilesFrom(start, limit, step);
      TilesFromMaximal(start + step, limit, step);
      assert n * step == (n - 1) * step + step;
    }
  }

  /** The counting loop: one tile per step from the margin while a whole tile still fits. */
  method CountTiles(start: int, limit: int, step: int) returns (count: nat)
    requires step > 0 || start > limit
    ensures count == TilesFrom(start, limit, step)
  {
    count := 0;
    var pos := start;
    while pos <= limit
      invariant step > 0 || pos > limit
      invariant count + TilesFrom(pos, limit, step) == TilesFrom(start, limit, step)
      decreases limit - pos
    {
      count := count + 1;
      pos := pos + step;
    }
  }

  /** The position of the last '.' in a path, or -1 when there is none. */
  function LastDot(s: string): (r: int)
    ensures -1 <= r < |s|
    ensures r >= 0 ==> s[r] == '.'
    ensures forall j :: r < j < |s| ==> s[j] != '.'
    decreases |s|
  {
    if |s| == 0 then -1
    else if s[|s| - 1] == '.' then |s| - 1
    else LastDot(s[..|s| - 1])
  }

  /** The image path without its last extension. */
  function StripExtension(path: string): (r: string)
    requires LastDot(path) >= 0
    ensures '.' in path
    ensures |r| < |path| && path == r + "." + path[|r| + 1..]
    ensures '.' !in path[|r| + 1..]
  {
    var dot := LastDot(path);
    assert path == path[..dot] + "." + path[dot + 1..];
    path[..dot]
  }

  /**
   * The atlas region a tileset image is loaded from: the image path itself
   * when the atlas has it; otherwise, only for a path with an extension,
   * the path with that extension stripped, when the atlas has that.
   */
  function AtlasRegionName(atlas: set<string>, path: string): (r: Option<string>)
    ensures r.Some? ==> r.value in atlas
    ensures path in atlas ==> r == Some(path)
    ensures r.Some? && r.value != path ==>
      path !in atlas && |r.value| < |path| && path == r.value + "." + path[|r.value| + 1..] && '.' !in path[|r.value| + 1..]
    ensures r.None? <==> path !in atlas && ('.' !in path || StripExtension(path) !in atlas)
  {
    if path in atlas then Some(path)
    else if LastDot(path) >= 0 && StripExtension(path) in atlas then Some(StripExtension(path))
    else None
  }

  class ImageTilesetSource {
    const width: int
    const height: int
    const tileWidth: int
    const tileHeight: int
    const spacing: int
    const margin: int
    /** The tile id of grid cell (x, y) for a first gid; defined by the tileset base class. */
    const tileIdOf: (int, int, int) -> int

    var tiles: array2<Tile>
    var tileImages: map<int, Sprite>
    var widthInTiles: int
    var heightInTiles: int
    var properties: Option<map<string, string>>
    var name: Option<string>
    var tilesetImagePath: string
    var transparentColorValue: Option<string>
    var hasTextureRegion: bool
    var hasBackingTexture: bool

    /** Counting across ends: a positive horizontal step, or no room for even one tile. */
    predicate AcrossEnds() {
      tileWidth + spacing > 0 || margin > width - tileWidth
    }

    /** Counting down ends: a positive vertical step, or no room for even one tile. */
    predicate DownEnds() {
      tileHeight + spacing > 0 || margin > height - tileHeight
    }

    function TilesAcross(): nat
      requires AcrossEnds()
    {
      TilesFrom(margin, width - tileWidth, tileWidth + spacing)
    }

    function TilesDown(): nat
      requires DownEnds()
    {
      TilesFrom(margin, height - tileHeight, tileHeight + spacing)
    }

    predicate InGrid(x: int, y: int)
      requires AcrossEnds() && DownEnds()
    {
      0 <= x < TilesAcross() && 0 <= y < TilesDown()
    }

    /** Where tile (x, y) is cut from the image. */
    function CutRegion(x: int, y: int): Sprite {
      Sprite(margin + x * spacing + x * tileWidth, margin + y * spacing + y * tileHeight, tileWidth, tileHeight)
    }

    predicate WithinImage(s: Sprite) {
      0 <= s.x - margin && s.x + s.width <= width && 0 <= s.y - margin && s.y + s.height <= height
    }

    /** The cached counts are either not yet computed or correct. */
    ghost predicate CountsCached()
      reads this
    {
      AcrossEnds() && DownEnds() &&
      (widthInTiles < 0 || widthInTiles == TilesAcross()) &&
      (heightInTiles < 0 || heightInTiles == TilesDown())
    }

    ghost predicate Valid()
      reads this, tiles
    {
      CountsCached() &&
      tiles.Length0 == TilesAcross() && tiles.Length1 == TilesDown() &&
      forall x, y :: 0 <= x < tiles.Length0 && 0 <= y < tiles.Length1 ==> tiles[x, y] == Tile(tileIdOf(x, y, 0))
    }

    /** Builds the grid of tiles, each carrying the tile id of its cell. */
    constructor (width: int, height: int, tileWidth: int, tileHeight: int, spacing: int, margin: int, tileIdOf: (int, int, int) -> int)
      requires tileWidth + spacing > 0 || margin > width - tileWidth
      requires tileHeight + spacing > 0 || margin > height - tileHeight
      ensures Valid()
      ensures this.width == width && this.height == height && this.tileWidth == tileWidth
      ensures this.tileHeight == tileHeight && this.spacing == spacing && this.margin == margin
      ensures this.tileIdOf == tileIdOf
      ensures widthInTiles == TilesAcross() && heightInTiles == TilesDown()
      ensures fresh(tiles) && tileImages == map[] && properties == None
      ensures !hasTextureRegion && !hasBackingTexture
    {
      this.width, this.height := width, height;
      this.tileWidth, this.tileHeight := tileWidth, tileHeight;
      this.spacing, this.margin := spacing, margin;
      this.tileIdOf := tileIdOf;
      widthInTiles, heightInTiles := -1, -1;
      tiles := new Tile[0, 0];
      tileImages := map[];
      properties, name := None, None;
      tilesetImagePath, transparentColorValue := "", None;
      hasTextureRegion, hasBackingTexture := false, false;
      new;
      var across := GetWidthInTiles();
      var down := GetHeightInTiles();
      var grid := new Tile[across, down];
      for x := 0 to across
        modifies grid
        invariant forall i, j :: 0 <= i < x && 0 <= j < down ==> grid[i, j] == Tile(tileIdOf(i, j, 0))
      {
        for y := 0 to down
          modifies grid
          invariant forall i, j :: 0 <= i < x && 0 <= j < down ==> grid[i, j] == Tile(tileIdOf(i, j, 0))
          invariant forall j :: 0 <= j < y ==> grid[x, j] == Tile(tileIdOf(x, j, 0))
        {
          grid[x, y] := Tile(tileIdOf(x, y, 0));
        }
      }
      tiles := grid;
    }

    /** The number of whole tiles across, counted once and then cached. */
    method GetWidthInTiles() returns (r: int)
      requires CountsCached()
      modifies this`widthInTiles
      ensures CountsCached()
      ensures r == TilesAcross() && widthInTiles == r
      ensures old(widthInTiles) >= 0 ==> widthInTiles == old(widthInTiles)
    {
      if widthInTiles < 0 {
        var result := CountTiles(margin, width - tileWidth, tileWidth + spacing);
        widthInTiles := result;
      }
      r := widthInTiles;
    }

    /** The number of whole tiles down, counted once and then cached. */
    method GetHeightInTiles() returns (r: int)
      requires CountsCached()
      modifies this`heightInTiles
      ensures CountsCached()
      ensures r == TilesDown() && heightInTiles == r
      ensures old(heightInTiles) >= 0 ==> heightInTiles == old(heightInTiles)
    {
      if heightInTiles < 0 {
        var result := CountTiles(margin, height - tileHeight, tileHeight + spacing);
        heightInTiles := result;
      }
      r := heightInTiles;
    }

    /** Tile images after cutting every cell from (x, y) on, in the loops' order (column by column). */
    function CutFrom(m: map<int, Sprite>, x: nat, y: nat): map<int, Sprite>
      requires AcrossEnds() && DownEnds()
      decreases TilesAcross() - x, TilesDown() - y
    {
      if x >= TilesAcross() then m
      else if y >= TilesDown() then CutFrom(m, x + 1, 0)
      else CutFrom(m[tileIdOf(x, y, 0) := CutRegion(x, y)], x, y + 1)
    }

    /** Cuts one tile image per grid cell and files it under the cell's tile id. */
    method CutTiles()
      requires Valid()
      modifies this`tileImages
      ensures tileImages == CutFrom(old(tileImages), 0, 0)
    {
      var across := GetWidthInTilesCached();
      var down := GetHeightInTilesCached();
      for x := 0 to across
        invariant CutFrom(tileImages, x, 0) == CutFrom(old(tileImages), 0, 0)
      {
        for y := 0 to down
          invariant CutFrom(tileImages, x, y) == CutFrom(old(tileImages), 0, 0)
        {
          var tileX := margin + (x * spacing) + (x * tileWidth);
          var tileY := margin + (y * spacing) + (y * tileHeight);
          tileImages := tileImages[tiles[x, y].tileId := Sprite(tileX, tileY, tileWidth, tileHeight)];
        }
      }
    }

    /** The grid size as the constructor cached it. */
    function GetWidthInTilesCached(): (r: nat)
      requires Valid()
      reads this, tiles
      ensures r == TilesAcross()
    {
      tiles.Length0
    }

    function GetHeightInTilesCached(): (r: nat)
      requires Valid()
      reads this, tiles
      ensures r == TilesDown()
    {
      tiles.Length1
    }

    /** A texture is loaded while a texture region is held: a load sets it, Dispose clears it. */
    predicate IsTextureLoaded()
      reads this
      ensures IsTextureLoaded() <==> hasTextureRegion
    {
      hasTextureRegion
    }

    /** Loads the image (from a file or an asset manager) and cuts the tiles, unless a texture is already loaded. */
    method LoadTextureFromPixmap() returns (outcome: LoadOutcome)
      requires Valid()
      modifies this`hasTextureRegion, this`hasBackingTexture, this`tileImages
      ensures old(hasTextureRegion) ==> outcome == AlreadyLoaded && unchanged(this)
      ensures !old(hasTextureRegion) ==>
        outcome == Loaded && hasTextureRegion && hasBackingTexture && tileImages == CutFrom(old(tileImages), 0, 0)
    {
      if hasTextureRegion {
        return AlreadyLoaded;
      }
      hasBackingTexture := true;
      hasTextureRegion := true;
      CutTiles();
      return Loaded;
    }

    /**
     * Loads from a texture atlas, unless a texture is already loaded. The
     * region is looked up by image path, falling back to the path without
     * its extension; a missing region fails the load and changes nothing.
     * Only a transparent colour makes the source own a backing texture.
     */
    method LoadTextureFromAtlas(atlas: set<string>) returns (outcome: LoadOutcome)
      requires Valid()
      modifies this`hasTextureRegion, this`hasBackingTexture, this`tileImages
      ensures old(hasTextureRegion) ==> outcome == AlreadyLoaded && unchanged(this)
      ensures !old(hasTextureRegion) && AtlasRegionName(atlas, tilesetImagePath).None? ==>
        outcome == RegionNotFound && unchanged(this)
      ensures !old(hasTextureRegion) && AtlasRegionName(atlas, tilesetImagePath).Some? ==>
        outcome == Loaded && hasTextureRegion && tileImages == CutFrom(old(tileImages), 0, 0)
        && hasBackingTexture == (old(hasBackingTexture) || transparentColorValue.Some?)
    {
      if hasTextureRegion {
        return AlreadyLoaded;
      }
      var found := tilesetImagePath in atlas;
      var dot := LastDot(tilesetImagePath);
      if !found && dot > -1 {
        found := tilesetImagePath[..dot] in atlas;
      }
      if !found {
        return RegionNotFound;
      }
      if transparentColorValue.Some? {
        hasBackingTexture := true;
      }
      hasTextureRegion := true;
      CutTiles();
      return Loaded;
    }

    /** Releases the texture: afterwards no texture is loaded and none is owned. */
    method Dispose()
      modifies this`hasTextureRegion, this`hasBackingTexture
      ensures !IsTextureLoaded() && !hasBackingTexture
    {
      hasTextureRegion := false;
      if !hasBackingTexture {
        return;
      }
      hasBackingTexture := false;
    }

    function PropertyMap(): map<string, string>
      reads this
    {
      match properties
      case None => map[]
      case Some(m) => m
    }

    predicate ContainsProperty(propertyName: string)
      reads this
      ensures ContainsProperty(propertyName) <==> propertyName in PropertyMap()
    {
      properties.Some? && propertyName in properties.value
    }

    function GetProperty(propertyName: string): (r: Option<string>)
      reads this
      ensures r.Some? <==> ContainsProperty(propertyName)
      ensures r.Some? ==> r.value == PropertyMap()[propertyName]
    {
      if properties.None? then None
      else if propertyName in properties.value then Some(properties.value[propertyName])
      else None
    }

    /** Stores a property, creating the map on first use; every other property is unchanged. */
    method SetProperty(propertyName: string, value: string)
      modifies this`properties
      ensures properties.Some?
      ensures GetProperty(propertyName) == Some(value) && ContainsProperty(propertyName)
      ensures forall k :: k != propertyName ==> GetProperty(k) == old(GetProperty(k))
    {
      if properties.None? {
        properties := Some(map[]);
      }
      properties := Some(properties.value[propertyName := value]);
    }

    /** The tile at a grid position; none where the grid has no such cell. */
    function GetTileByPosition(x: int, y: int): (r: Option<Tile>)
      requires Valid()
      reads this, tiles
      ensures r.Some? <==> InGrid(x, y)
      ensures r.Some? ==> r.value == Tile(tileIdOf(x, y, 0))
    {
      if 0 <= x < tiles.Length0 && 0 <= y < tiles.Length1 then Some(tiles[x, y]) else None
    }

    /** The image cut for a tile id, if one has been cut. */
    function GetTileImage(tileId: int): (r: Option<Sprite>)
      reads this
      ensures r.Some? <==> tileId in tileImages
      ensures r.Some? ==> r.value == tileImages[tileId]
    {
      if tileId in tileImages then Some(tileImages[tileId]) else None
    }

    /** Tile ids of distinct cells differ (as the base class's numbering guarantees). */
    ghost predicate TileIdsDistinct()
      requires AcrossEnds() && DownEnds()
    {
      forall x1, y1, x2, y2 :: InGrid(x1, y1) && InGrid(x2, y2) && tileIdOf(x1, y1, 0) == tileIdOf(x2, y2, 0) ==> x1 == x2 && y1 == y2
    }
  }

  /** Along one axis, the k-th counted tile starts at or past the margin and ends within the image. */
  lemma AxisFits(margin: int, size: int, tile: int, spacing: int, k: int)
    requires tile + spacing > 0 || margin > size - tile
    requires 0 <= k < TilesFrom(margin, size - tile, tile + spacing)
    ensures 0 <= k * spacing + k * tile
    ensures margin + k * spacing + k * tile + tile <= size
  {
    var step := tile + spacing;
    assert step > 0;
    TilesFromFit(margin, size - tile, step, k);
    assert k * spacing + k * tile == k * step;
    assert k * step >= 0;
  }

  /** Every cell of the grid is cut from a rectangle that lies within the image, at or past the margin. */
  lemma CutRegionWithinImage(t: ImageTilesetSource, x: int, y: int)
    requires t.AcrossEnds() && t.DownEnds()
    requires t.InGrid(x, y)
    ensures t.WithinImage(t.CutRegion(x, y))
  {
    AxisFits(t.margin, t.width, t.tileWidth, t.spacing, x);
    AxisFits(t.margin, t.height, t.tileHeight, t.spacing, y);
  }

  /** The grid is as large as the image allows: one more column, or one more row, would run past the image. */
  lemma GridIsMaximal(t: ImageTilesetSource)
    requires t.AcrossEnds() && t.DownEnds()
    ensures t.CutRegion(t.TilesAcross(), 0).x + t.tileWidth > t.width
    ensures t.CutRegion(0, t.TilesDown()).y + t.tileHeight > t.height
  {
    var n, d := t.TilesAcross(), t.TilesDown();
    TilesFromMaximal(t.margin, t.width - t.tileWidth, t.tileWidth + t.spacing);
    TilesFromMaximal(t.margin, t.height - t.tileHeight, t.tileHeight + t.spacing);
    assert n * t.spacing + n * t.tileWidth == n * (t.tileWidth + t.spacing);
    assert d * t.spacing + d * t.tileHeight == d * (t.tileHeight + t.spacing);
  }

  /** Cell (i, j) comes at or after cell (x, y) in the cutting order, column by column. */
  predicate AtOrAfter(i: int, j: int, x: int, y: int) {
    i > x || (i == x && j >= y)
  }

  /** Cutting only adds or overwrites entries: a key present before is present after. */
  lemma {:induction false} CutFromKeepsKeys(t: ImageTilesetSource, m: map<int, Sprite>, x: nat, y: nat, k: int)
    requires t.AcrossEnds() && t.DownEnds()
    requires k in m
    ensures k in t.CutFrom(m, x, y)
    decreases t.TilesAcross() - x, t.TilesDown() - y
  {
    if x < t.TilesAcross() {
      if y >= t.TilesDown() {
        CutFromKeepsKeys(t, m, x + 1, 0, k);
      } else {
        CutFromKeepsKeys(t, m[t.tileIdOf(x, y, 0) := t.CutRegion(x, y)], x, y + 1, k);
      }
    }
  }

  /** Every cell still to be cut ends up with a tile image under its tile id. */
  lemma {:induction false} CutFromCovers(t: ImageTilesetSource, m: map<int, Sprite>, x: nat, y: nat, cx: int, cy: int)
    requires t.AcrossEnds() && t.DownEnds()
    requires t.InGrid(cx, cy) && AtOrAfter(cx, cy, x, y)
    ensures t.tileIdOf(cx, cy, 0) in t.CutFrom(m, x, y)
    decreases t.TilesAcross() - x, t.TilesDown() - y
  {
    if y >= t.TilesDown() {
      CutFromCovers(t, m, x + 1, 0, cx, cy);
    } else {
      var m' := m[t.tileIdOf(x, y, 0) := t.CutRegion(x, y)];
      if cx == x && cy == y {
        CutFromKeepsKeys(t, m', x, y + 1, t.tileIdOf(cx, cy, 0));
      } else {
        CutFromCovers(t, m', x, y + 1, cx, cy);
      }
    }
  }

  /** Every entry that cutting adds or changes is a tile-sized rectangle within the image. */
  lemma {:induction false} CutFromWithinImage(t: ImageTilesetSource, m: map<int, Sprite>, x: nat, y: nat, k: int)
    requires t.AcrossEnds() && t.DownEnds()
    requires k in t.CutFrom(m, x, y) && (k !in m || t.CutFrom(m, x, y)[k] != m[k])
    ensures t.WithinImage(t.CutFrom(m, x, y)[k])
    ensures t.CutFrom(m, x, y)[k].width == t.tileWidth && t.CutFrom(m, x, y)[k].height == t.tileHeight
    decreases t.TilesAcross() - x, t.TilesDown() - y
  {
    if x < t.TilesAcross() {
      if y >= t.TilesDown() {
        CutFromWithinImage(t, m, x + 1, 0, k);
      } else {
        var m' := m[t.tileIdOf(x, y, 0) := t.CutRegion(x, y)];
        if k in m' && t.CutFrom(m', x, y + 1)[k] == m'[k] {
          assert k == t.tileIdOf(x, y, 0);
          CutRegionWithinImage(t, x, y);
        } else {
          CutFromWithinImage(t, m', x, y + 1, k);
        }
      }
    }
  }

  /** A key that no remaining cell carries is left exactly as it was. */
  lemma {:induction false} CutFromUntouched(t: ImageTilesetSource, m: map<int, Sprite>, x: nat, y: nat, k: int)
    requires t.AcrossEnds() && t.DownEnds()
    requires forall i, j :: t.InGrid(i, j) && AtOrAfter(i, j, x, y) ==> t.tileIdOf(i, j, 0) != k
    ensures k in t.CutFrom(m, x, y) <==> k in m
    ensures k in m ==> t.CutFrom(m, x, y)[k] == m[k]
    decreases t.TilesAcross() - x, t.TilesDown() - y
  {
    if x < t.TilesAcross() {
      if y >= t.TilesDown() {
        CutFromUntouched(t, m, x + 1, 0, k);
      } else {
        assert t.InGrid(x, y) && AtOrAfter(x, y, x, y);
        CutFromUntouched(t, m[t.tileIdOf(x, y, 0) := t.CutRegion(x, y)], x, y + 1, k);
      }
    }
  }

  /** With distinct tile ids, every remaining cell's id maps to exactly that cell's cut rectangle. */
  lemma {:induction false} CutFromExact(t: ImageTilesetSource, m: map<int, Sprite>, x: nat, y: nat, cx: int, cy: int)
    requires t.AcrossEnds() && t.DownEnds() && t.TileIdsDistinct()
    requires t.InGrid(cx, cy) && AtOrAfter(cx, cy, x, y)
    ensures t.tileIdOf(cx, cy, 0) in t.CutFrom(m, x, y)
    ensures t.CutFrom(m, x, y)[t.tileIdOf(cx, cy, 0)] == t.CutRegion(cx, cy)
    decreases t.TilesAcross() - x, t.TilesDown() - y
  {
    if y >= t.TilesDown() {
      CutFromExact(t, m, x + 1, 0, cx, cy);
    } else {
      var m' := m[t.tileIdOf(x, y, 0) := t.CutRegion(x, y)];
      if cx == x && cy == y {
        forall i, j | t.InGrid(i, j) && AtOrAfter(i, j, x, y + 1)
          ensures t.tileIdOf(i, j, 0) != t.tileIdOf(cx, cy, 0)
        {
        }
        CutFromUntouched(t, m', x, y + 1, t.tileIdOf(cx, cy, 0));
      } else {
        CutFromExact(t, m', x, y + 1, cx, cy);
      }
    }
  }

  /**
   * What cutting all tiles does to the tile-image map: every cell's tile
   * id gets an image, keys already present stay, every added or changed
   * image is a tile-sized rectangle inside the image, and with distinct tile
   * ids each cell's id maps to exactly that cell's cut rectangle.
   */
  lemma CutAllTiles(t: ImageTilesetSource, m: map<int, Sprite>)
    requires t.AcrossEnds() && t.DownEnds()
    ensures forall x, y :: t.InGrid(x, y) ==> t.tileIdOf(x, y, 0) in t.CutFrom(m, 0, 0)
    ensures forall k :: k in m ==> k in t.CutFrom(m, 0, 0)
    ensures forall k :: k in t.CutFrom(m, 0, 0) && (k !in m || t.CutFrom(m, 0, 0)[k] != m[k]) ==>
      t.WithinImage(t.CutFrom(m, 0, 0)[k]) &&
      t.CutFrom(m, 0, 0)[k].width == t.tileWidth && t.CutFrom(m, 0, 0)[k].height == t.tileHeight
    ensures t.TileIdsDistinct() ==>
      forall x, y :: t.InGrid(x, y) ==> t.CutFrom(m, 0, 0)[t.tileIdOf(x, y, 0)] == t.CutRegion(x, y)
  {
    forall x, y | t.InGrid(x, y)
      ensures t.tileIdOf(x, y, 0) in t.CutFrom(m, 0, 0)
    {
      CutFromCovers(t, m, 0, 0, x, y);
    }
    forall k | k in m
      ensures k in t.CutFrom(m, 0, 0)
    {
      CutFromKeepsKeys(t, m, 0, 0, k);
    }
    forall k | k in t.CutFrom(m, 0, 0) && (k !in m || t.CutFrom(m, 0, 0)[k] != m[k])
      ensures t.WithinImage(t.CutFrom(m, 0, 0)[k])
      ensures t.CutFrom(m, 0, 0)[k].width == t.tileWidth && t.CutFrom(m, 0, 0)[k].height == t.tileHeight
    {
      CutFromWithinImage(t, m, 0, 0, k);
    }
    if t.TileIdsDistinct() {
      forall x, y | t.InGrid(x, y)
        ensures t.CutFrom(m, 0, 0)[t.tileIdOf(x, y, 0)] == t.CutRegion(x, y)
      {
        CutFromExact(t, m, 0, 0, x, y);
      }
    }
  }
}
