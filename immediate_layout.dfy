/**
 * The pass-through layout strategy: an element laid out "immediately" is
 * placed and sized by its own explicit x, y, width and height, and its
 * children are placed at the parent's top-left padding plus their offsets.
 */
module ImmediateLayout {
  import opened Wrappers
  import opened UiModel

  /** The four rules an immediate ruleset hands out: two offset rules and two size rules. */
  datatype ImmediateRule = XRule | YRule | WidthRule | HeightRule {
    predicate IsSizeRule() {
      WidthRule? || HeightRule?
    }
  }

  class ImmediateLayoutRuleset {
    const element: UiElement

    constructor (element: UiElement)
      ensures this.element == element
    {
      this.element := element;
    }

    /**
     * Lays out every child once, in order; each child that is included in
     * layout is then placed at the parent's padding origin plus its own
     * offsets, and every other child keeps its previous position.
     */
    method Layout(state: LayoutState, parentStyle: Spacing, children: seq<RenderNode>)
      requires forall i, j :: 0 <= i < j < |children| ==> children[i] != children[j]
      modifies state, set c | c in children
      ensures state.laidOut == old(state.laidOut) + children
      ensures forall c :: c in children && c.includedInLayout ==>
        c.relativeX == parentStyle.paddingLeft + c.xOffset && c.relativeY == parentStyle.paddingTop + c.yOffset
      ensures forall c :: c in children && !c.includedInLayout ==>
        c.relativeX == old(c.relativeX) && c.relativeY == old(c.relativeY)
    {
      var startX := parentStyle.paddingLeft;
      var startY := parentStyle.paddingTop;
      for i := 0 to |children|
        invariant state.laidOut == old(state.laidOut) + children[..i]
        invariant forall k :: 0 <= k < i && children[k].includedInLayout ==>
          children[k].relativeX == startX + children[k].xOffset && children[k].relativeY == startY + children[k].yOffset
        invariant forall k :: 0 <= k < i && !children[k].includedInLayout ==>
          children[k].relativeX == old(children[k].relativeX) && children[k].relativeY == old(children[k].relativeY)
        invariant forall k :: i <= k < |children| ==>
          children[k].relativeX == old(children[k].relativeX) && children[k].relativeY == old(children[k].relativeY)
      {
        var node := children[i];
        node.Layout(state);
        if !node.includedInLayout {
          continue;
        }
        node.relativeX := startX + node.xOffset;
        node.relativeY := startY + node.yOffset;
      }
      assert children[..|children|] == children;
    }

    function PreferredElementRelativeX(): real
      reads element
    {
      element.x
    }

    function PreferredElementRelativeY(): real
      reads element
    {
      element.y
    }

    function PreferredElementWidth(): real
      reads element
    {
      element.width
    }

    function PreferredElementHeight(): real
      reads element
    {
      element.height
    }

    predicate IsHiddenByInputSource() {
      false
    }

    function CurrentWidthRule(): ImmediateRule {
      WidthRule
    }

    function CurrentHeightRule(): ImmediateRule {
      HeightRule
    }

    function CurrentOffsetXRule(): ImmediateRule {
      XRule
    }

    function CurrentOffsetYRule(): ImmediateRule {
      YRule
    }

    predicate IsFlexLayout() {
      false
    }

    /** An immediate ruleset matches exactly the absent or empty layout specification. */
    predicate Equals(rules: Option<string>)
      ensures Equals(rules) <==> rules == None || rules == Some("")
    {
      match rules
      case None => true
      case Some(s) => |s| == 0
    }

    /** The value a rule yields, read from the element at the moment it is asked. */
    function RuleValue(rule: ImmediateRule): real
      reads element
    {
      match rule
      case XRule => element.x
      case YRule => element.y
      case WidthRule => element.width
      case HeightRule => element.height
    }

    /** Immediate size rules are never content-driven. */
    predicate IsAutoSize(rule: ImmediateRule)
      requires rule.IsSizeRule()
    {
      false
    }
  }

  /**
   * The ruleset passes the element's geometry straight through: the
   * preferred position and size, and the current rules' values, are the
   * element's own x, y, width and height; it is never hidden by the input
   * source, is not a flex layout, and its size rules are never auto-sized.
   */
  lemma PassThrough(rs: ImmediateLayoutRuleset)
    ensures rs.PreferredElementRelativeX() == rs.element.x && rs.PreferredElementRelativeY() == rs.element.y
    ensures rs.PreferredElementWidth() == rs.element.width && rs.PreferredElementHeight() == rs.element.height
    ensures rs.RuleValue(rs.CurrentOffsetXRule()) == rs.PreferredElementRelativeX()
    ensures rs.RuleValue(rs.CurrentOffsetYRule()) == rs.PreferredElementRelativeY()
    ensures rs.RuleValue(rs.CurrentWidthRule()) == rs.PreferredElementWidth()
    ensures rs.RuleValue(rs.CurrentHeightRule()) == rs.PreferredElementHeight()
    ensures !rs.IsHiddenByInputSource() && !rs.IsFlexLayout()
    ensures !rs.IsAutoSize(rs.CurrentWidthRule()) && !rs.IsAutoSize(rs.CurrentHeightRule())
  {
  }
}
