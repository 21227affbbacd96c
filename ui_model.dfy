/**
 * The parts of the UI element and render-node model that the Select render
 * node and the immediate layout ruleset share: node states, rectangles,
 * padding/margin boxes, the logical element's geometry, hit boxes and the
 * child render nodes a ruleset lays out.
 */
module UiModel {
  import opened Wrappers

  /** Interaction state of a render node or of one of its hit regions. */
  datatype NodeState = NORMAL | HOVER | ACTION

  /** An axis-aligned rectangle; `Contains` includes the edges. */
  datatype Rect = Rect(x: real, y: real, width: real, height: real) {
    predicate Contains(px: real, py: real) {
      x <= px <= x + width && y <= py <= y + height
    }
  }

  /** Padding and margin of a style rule, on all four sides. */
  datatype Spacing = Spacing(
    paddingTop: real, paddingBottom: real, paddingLeft: real, paddingRight: real,
    marginTop: real, marginBottom: real, marginLeft: real, marginRight: real)
  {
    /** What padding and margin take away from a width. */
    function Horizontal(): real {
      paddingLeft + paddingRight + marginLeft + marginRight
    }

    /** What padding and margin take away from a height. */
    function Vertical(): real {
      paddingTop + paddingBottom + marginTop + marginBottom
    }
  }

  /** The logical element: its identifier, explicit geometry and flex layout specification. */
  class UiElement {
    const id: Option<string>
    var x: real
    var y: real
    var width: real
    var height: real
    var flexLayout: Option<string>

    constructor (id: Option<string>, x: real, y: real, width: real, height: real, flexLayout: Option<string>)
      ensures this.id == id && this.flexLayout == flexLayout
      ensures this.x == x && this.y == y && this.width == width && this.height == height
    {
      this.id := id;
      this.x, this.y, this.width, this.height := x, y, width, height;
      this.flexLayout := flexLayout;
    }

    /** Moves and resizes the element; its layout specification is untouched. */
    method Set(x: real, y: real, width: real, height: real)
      modifies this
      ensures this.x == x && this.y == y && this.width == width && this.height == height
      ensures flexLayout == old(flexLayout)
    {
      this.x, this.y, this.width, this.height := x, y, width, height;
    }
  }

  /** A hit box that a render node moves and resizes in place. */
  class CollisionBox {
    var x: real
    var y: real
    var width: real
    var height: real

    constructor ()
      ensures x == 0.0 && y == 0.0 && width == 0.0 && height == 0.0
    {
      x, y, width, height := 0.0, 0.0, 0.0, 0.0;
    }

    function Bounds(): Rect
      reads this
    {
      Rect(x, y, width, height)
    }
  }

  /**
   * The context of one layout pass. The model keeps, as `laidOut`, the
   * order in which render nodes were laid out during the pass.
   */
  class LayoutState {
    var laidOut: seq<RenderNode>

    constructor ()
      ensures laidOut == []
    {
      laidOut := [];
    }
  }

  /**
   * A child render node as a parent's ruleset sees it: the offsets its own
   * layout computed, whether it takes part in layout, and the position
   * relative to its parent that the ruleset assigns.
   */
  class RenderNode {
    var xOffset: real
    var yOffset: real
    var includedInLayout: bool
    var relativeX: real
    var relativeY: real

    constructor (xOffset: real, yOffset: real, includedInLayout: bool)
      ensures this.xOffset == xOffset && this.yOffset == yOffset
      ensures this.includedInLayout == includedInLayout
      ensures relativeX == 0.0 && relativeY == 0.0
    {
      this.xOffset, this.yOffset := xOffset, yOffset;
      this.includedInLayout := includedInLayout;
      relativeX, relativeY := 0.0, 0.0;
    }

    /**
     * The node's own layout. Its offsets and inclusion are computed by
     * code outside this model, so the contract promises nothing about
     * them; it promises only that the call is recorded in the pass and
     * that the position relative to the parent is left to the parent.
     */
    method Layout(state: LayoutState)
      modifies this, state
      ensures state.laidOut == old(state.laidOut) + [this]
      ensures relativeX == old(relativeX) && relativeY == old(relativeY)
    {
      state.laidOut := state.laidOut + [this];
    }
  }
}
