/**
 * The render node of a Select widget: a label showing the selected option
 * between a left and a right stepper button. The node chooses and rebuilds
 * its layout ruleset, measures itself, resolves its sub-styles and text
 * colour, and runs the two-button interaction protocol.
 */
module SelectRender {
  import opened Wrappers
  import opened UiModel
  import opened ImmediateLayout
  import opened SelectInteraction

  /** The theme's fallback style identifier. */
  const DEFAULT_STYLE_ID: string := "default"

  datatype Color = Color(rgba8888: int)

  datatype LabelStyleRule = LabelStyleRule(color: Option<Color>, font: Option<string>)

  /** A button style; the node only hands it to drawing code. */
  datatype ButtonStyleRule = ButtonStyleRule(name: string)

  /** The Select's own style rule, with the identifiers of its sub-styles (absent when unset). */
  datatype SelectStyleRule = SelectStyleRule(
    spacing: Spacing,
    minHeight: real,
    buttonWidth: real,
    leftButtonStyle: Option<string>,
    rightButtonStyle: Option<string>,
    enabledLabelStyle: Option<string>,
    disabledLabelStyle: Option<string>,
    leftButtonLabelStyle: Option<string>,
    rightButtonLabelStyle: Option<string>)

  /** The theme, already resolved for the current screen size. */
  datatype Theme = Theme(
    selectRule: SelectStyleRule,
    buttonRule: string -> ButtonStyleRule,
    labelRule: string -> LabelStyleRule)

  /** What caused an action; a mouse click carries the mouse button. */
  datatype EventTrigger = MouseClick(button: int)

  /** Everything the node asks of its Select element, in the order asked. */
  datatype ElementEvent =
    | StepBack
    | StepForward
    | ActionBegin(trigger: EventTrigger, mouseX: int, mouseY: int)
    | ActionEnd(trigger: EventTrigger, mouseX: int, mouseY: int)

  /** The Select element: the UiElement it extends, plus its enabled flag, colours and selection. */
  class Select {
    const base: UiElement
    var enabled: bool
    var hasSelectedOption: bool
    var enabledTextColor: Option<Color>
    var disabledTextColor: Option<Color>
    var events: seq<ElementEvent>

    constructor (base: UiElement)
      ensures this.base == base && enabled && !hasSelectedOption
      ensures enabledTextColor == None && disabledTextColor == None && events == []
    {
      this.base := base;
      enabled, hasSelectedOption := true, false;
      enabledTextColor, disabledTextColor := None, None;
      events := [];
    }

    method PreviousOption()
      modifies this`events
      ensures events == old(events) + [StepBack]
    {
      events := events + [StepBack];
    }

    method NextOption()
      modifies this`events
      ensures events == old(events) + [StepForward]
    {
      events := events + [StepForward];
    }

    method NotifyActionListenersOfBeginEvent(trigger: EventTrigger, mouseX: int, mouseY: int)
      modifies this`events
      ensures events == old(events) + [ActionBegin(trigger, mouseX, mouseY)]
    {
      events := events + [ActionBegin(trigger, mouseX, mouseY)];
    }

    method NotifyActionListenersOfEndEvent(trigger: EventTrigger, mouseX: int, mouseY: int)
      modifies this`events
      ensures events == old(events) + [ActionEnd(trigger, mouseX, mouseY)]
    {
      events := events + [ActionEnd(trigger, mouseX, mouseY)];
    }
  }

  /** What a flex ruleset answers for the layout pass in progress. */
  datatype FlexLayoutRuleset = FlexLayoutRuleset(
    preferredX: real, preferredY: real, preferredWidth: real, preferredHeight: real,
    heightAutoSize: bool, hiddenByInputSource: bool)

  /** The active layout ruleset: pass-through, or flex parsed from a specification string. */
  datatype LayoutRuleset = Immediate(imm: ImmediateLayoutRuleset) | Flex(spec: string, flex: FlexLayoutRuleset) {
    function Reads(): set<object> {
      if Immediate? then {imm.element} else {}
    }

    /** Whether this ruleset still matches a layout specification. */
    predicate Equals(rules: Option<string>) {
      match this
      case Immediate(r) => r.Equals(rules)
      case Flex(s, _) => rules == Some(s)
    }

    predicate IsFlexLayout() {
      match this
      case Immediate(r) => r.IsFlexLayout()
      case Flex(_, _) => true
    }

    predicate IsHiddenByInputSource() {
      match this
      case Immediate(r) => r.IsHiddenByInputSource()
      case Flex(_, f) => f.hiddenByInputSource
    }

    predicate HeightRuleIsAutoSize() {
      match this
      case Immediate(r) => r.IsAutoSize(r.CurrentHeightRule())
      case Flex(_, f) => f.heightAutoSize
    }

    function PreferredElementWidth(): real
      reads Reads()
    {
      match this
      case Immediate(r) => r.PreferredElementWidth()
      case Flex(_, f) => f.preferredWidth
    }

    function PreferredElementHeight(): real
      reads Reads()
    {
      match this
      case Immediate(r) => r.PreferredElementHeight()
      case Flex(_, f) => f.preferredHeight
    }

    function PreferredElementRelativeX(): real
      reads Reads()
    {
      match this
      case Immediate(r) => r.PreferredElementRelativeX()
      case Flex(_, f) => f.preferredX
    }

    function PreferredElementRelativeY(): real
      reads Reads()
    {
      match this
      case Immediate(r) => r.PreferredElementRelativeY()
      case Flex(_, f) => f.preferredY
    }
  }

  /** A ruleset built for a specification: flex when one is present, pass-through over `element` otherwise. */
  ghost predicate BuiltFrom(rs: LayoutRuleset, spec: Option<string>, element: UiElement, parse: string -> FlexLayoutRuleset) {
    match spec
    case Some(s) => rs == Flex(s, parse(s))
    case None => rs.Immediate? && rs.imm.element == element
  }

  /** A freshly built ruleset matches the specification it was built for, so it is not rebuilt again until that changes. */
  lemma BuiltRulesetMatches(rs: LayoutRuleset, spec: Option<string>, element: UiElement, parse: string -> FlexLayoutRuleset)
    requires BuiltFrom(rs, spec, element, parse)
    ensures rs.Equals(spec)
    ensures rs.IsFlexLayout() <==> spec.Some?
  {
  }

  /**
   * An empty specification keeps a pass-through ruleset in place (it still
   * matches), although building a ruleset for that same empty specification
   * gives a flex ruleset parsed from the empty string.
   */
  lemma EmptySpecification(rs: LayoutRuleset, element: UiElement, parse: string -> FlexLayoutRuleset)
    requires rs.Immediate?
    ensures rs.Equals(Some(""))
    ensures BuiltFrom(Flex("", parse("")), Some(""), element, parse) && Flex("", parse("")).IsFlexLayout()
  {
  }

  /** A sub-style identifier, or the default style when it is unset. */
  function SubStyleId(id: Option<string>): (r: string)
    ensures id.Some? ==> r == id.value
    ensures id.None? ==> r == DEFAULT_STYLE_ID
  {
    match id
    case Some(s) => s
    case None => DEFAULT_STYLE_ID
  }

  datatype WidthOutcome = WidthOutcome(contentWidth: real, hiddenByLayoutRule: bool)

  /**
   * Preferred content width: nothing when hidden by the input source (the
   * layout-rule flag is then left as it was); nothing, and hidden by the
   * layout rule, when the rule width is not positive; otherwise visible,
   * and the rule width less horizontal padding and margin.
   */
  function PreferredContentWidth(hiddenByInputSource: bool, ruleWidth: real, spacing: Spacing, wasHidden: bool): (r: WidthOutcome)
    ensures hiddenByInputSource ==> r == WidthOutcome(0.0, wasHidden)
    ensures !hiddenByInputSource ==> (r.hiddenByLayoutRule <==> ruleWidth <= 0.0)
    ensures !hiddenByInputSource && ruleWidth <= 0.0 ==> r.contentWidth == 0.0
    ensures !hiddenByInputSource && ruleWidth > 0.0 ==> r.contentWidth + spacing.Horizontal() == ruleWidth
  {
    if hiddenByInputSource then WidthOutcome(0.0, wasHidden)
    else if ruleWidth <= 0.0 then WidthOutcome(0.0, true)
    else WidthOutcome(ruleWidth - spacing.paddingLeft - spacing.paddingRight - spacing.marginLeft - spacing.marginRight, false)
  }

  /**
   * Preferred content height: the least height that fits the label, lets
   * the node reach its minimum height (when one is set) with padding and
   * margin added, and, for an explicit height rule, fills the rule's height
   * less padding and margin.
   */
  function PreferredContentHeight(labelHeight: real, minHeight: real, spacing: Spacing, ruleHeight: real, ruleIsAutoSize: bool): (r: real)
    ensures r >= labelHeight
    ensures minHeight > 0.0 ==> r + spacing.Vertical() >= minHeight
    ensures !ruleIsAutoSize ==> r + spacing.Vertical() >= ruleHeight
    ensures r == labelHeight
         || (minHeight > 0.0 && r + spacing.Vertical() == minHeight)
         || (!ruleIsAutoSize && r + spacing.Vertical() == ruleHeight)
  {
    var clamped :=
      if minHeight > 0.0 && labelHeight + spacing.paddingTop + spacing.paddingBottom + spacing.marginTop + spacing.marginBottom < minHeight
      then minHeight - spacing.paddingTop - spacing.paddingBottom - spacing.marginTop - spacing.marginBottom
      else labelHeight;
    var sizeRuleHeight := ruleHeight - spacing.paddingTop - spacing.paddingBottom - spacing.marginTop - spacing.marginBottom;
    if !ruleIsAutoSize && sizeRuleHeight > clamped then sizeRuleHeight else clamped
  }

  /** The outcome of choosing the colour the selected label is drawn in. */
  datatype TextColourChoice =
    | NoSelection                          // nothing selected: nothing is drawn
    | Chosen(colour: Color)
    | MissingColour(elementId: Option<string>)  // the fatal configuration error
    | StyleUnresolved                      // the label style was never resolved

  /**
   * The element's own colour wins; failing that, the label style's colour;
   * with neither, a fatal error naming the element. No colour is ever made up.
   * An unresolved label style fails whatever the override, since its font
   * is read after the colour is set.
   */
  function ChooseTextColour(override: Option<Color>, labelStyle: Option<LabelStyleRule>, elementId: Option<string>): (r: TextColourChoice)
    ensures r != NoSelection
    ensures r.StyleUnresolved? <==> labelStyle.None?
    ensures labelStyle.Some? && override.Some? ==> r == Chosen(override.value)
    ensures labelStyle.Some? && override.None? && labelStyle.value.color.Some? ==> r == Chosen(labelStyle.value.color.value)
    ensures r.Chosen? ==> override == Some(r.colour) || (labelStyle.Some? && labelStyle.value.color == Some(r.colour))
    ensures r.MissingColour? <==> override.None? && labelStyle.Some? && labelStyle.value.color.None?
    ensures r.MissingColour? ==> r.elementId == elementId
  {
    match labelStyle
    case None => StyleUnresolved
    case Some(rule) =>
      match override
      case Some(c) => Chosen(c)
      case None =>
        match rule.color
        case Some(c) => Chosen(c)
        case None => MissingColour(elementId)
  }

  class SelectRenderNode {
    const element: Select
    const leftButton: CollisionBox
    const rightButton: CollisionBox

    var layoutRuleset: LayoutRuleset
    var leftButtonState: NodeState
    var rightButtonState: NodeState

    /** The node's own interaction state, kept by the base render node. */
    var state: NodeState
    /** Whether the base render node currently renders this node. */
    var includedInRender: bool
    var hiddenByLayoutRule: bool
    var labelHeight: real
    /** The resolved Select style rule, kept by the base render node. */
    var style: SelectStyleRule
    var innerArea: Rect
    var outerArea: Rect

    var leftButtonStyleRule: Option<ButtonStyleRule>
    var rightButtonStyleRule: Option<ButtonStyleRule>
    var enabledStyleRule: Option<LabelStyleRule>
    var disabledStyleRule: Option<LabelStyleRule>
    var leftButtonLabelStyleRule: Option<LabelStyleRule>
    var rightButtonLabelStyleRule: Option<LabelStyleRule>

    ghost predicate Valid()
      reads this
    {
      leftButton != rightButton &&
      (layoutRuleset.Immediate? ==> layoutRuleset.imm.element == element.base)
    }

    function CurrentInteraction(): Interaction
      reads this
    {
      Interaction(state, leftButtonState, rightButtonState)
    }

    constructor (element: Select, style: SelectStyleRule, parse: string -> FlexLayoutRuleset)
      ensures Valid()
      ensures this.element == element && this.style == style
      ensures BuiltFrom(layoutRuleset, element.base.flexLayout, element.base, parse)
      ensures CurrentInteraction() == Interaction(NORMAL, NORMAL, NORMAL)
      ensures !hiddenByLayoutRule && labelHeight == 0.0
      ensures fresh(leftButton) && fresh(rightButton)
    {
      this.element := element;
      this.style := style;
      leftButton := new CollisionBox();
      rightButton := new CollisionBox();
      layoutRuleset := Flex("", FlexLayoutRuleset(0.0, 0.0, 0.0, 0.0, true, false));
      leftButtonState, rightButtonState, state := NORMAL, NORMAL, NORMAL;
      includedInRender, hiddenByLayoutRule := true, false;
      labelHeight := 0.0;
      innerArea, outerArea := Rect(0.0, 0.0, 0.0, 0.0), Rect(0.0, 0.0, 0.0, 0.0);
      leftButtonStyleRule, rightButtonStyleRule := None, None;
      enabledStyleRule, disabledStyleRule := None, None;
      leftButtonLabelStyleRule, rightButtonLabelStyleRule := None, None;
      new;
      InitLayoutRuleset(parse);
    }

    /** Builds the ruleset for the element's current layout specification. */
    method InitLayoutRuleset(parse: string -> FlexLayoutRuleset)
      requires leftButton != rightButton
      modifies this`layoutRuleset
      ensures Valid()
      ensures BuiltFrom(layoutRuleset, element.base.flexLayout, element.base, parse)
      ensures layoutRuleset.Immediate? ==> fresh(layoutRuleset.imm)
    {
      match element.base.flexLayout {
        case Some(spec) =>
          layoutRuleset := Flex(spec, parse(spec));
        case None =>
          var imm := new ImmediateLayoutRuleset(element.base);
          layoutRuleset := Immediate(imm);
      }
    }

    /**
     * Rebuilds the ruleset exactly when it no longer matches the element's
     * specification, takes the outer area the base layout computed, and
     * writes that area back onto the element only under a flex ruleset.
     */
    method Layout(parse: string -> FlexLayoutRuleset, laidOutArea: Rect)
      requires Valid()
      modifies this`layoutRuleset, this`outerArea, element.base
      ensures Valid()
      ensures old(layoutRuleset.Equals(element.base.flexLayout)) ==> layoutRuleset == old(layoutRuleset)
      ensures !old(layoutRuleset.Equals(element.base.flexLayout)) ==>
        BuiltFrom(layoutRuleset, old(element.base.flexLayout), element.base, parse)
      ensures layoutRuleset.Equals(element.base.flexLayout)
      ensures outerArea == laidOutArea
      ensures element.base.flexLayout == old(element.base.flexLayout)
      ensures layoutRuleset.IsFlexLayout() ==>
        Rect(element.base.x, element.base.y, element.base.width, element.base.height) == laidOutArea
      ensures !layoutRuleset.IsFlexLayout() ==>
        element.base.x == old(element.base.x) && element.base.y == old(element.base.y) &&
        element.base.width == old(element.base.width) && element.base.height == old(element.base.height)
    {
      if !layoutRuleset.Equals(element.base.flexLayout) {
        InitLayoutRuleset(parse);
        BuiltRulesetMatches(layoutRuleset, element.base.flexLayout, element.base, parse);
      }
      outerArea := laidOutArea;
      if layoutRuleset.IsFlexLayout() {
        element.base.Set(outerArea.x, outerArea.y, outerArea.width, outerArea.height);
      }
    }

    /** Moves the left button to the content origin and the right button flush with the content's right edge. */
    method Update(contentRenderX: real, contentRenderY: real, contentRenderWidth: real)
      requires Valid()
      modifies leftButton, rightButton
      ensures Valid()
      ensures leftButton.Bounds() == old(leftButton.Bounds()).(x := contentRenderX, y := contentRenderY)
      ensures rightButton.Bounds() == old(rightButton.Bounds()).(x := contentRenderX + contentRenderWidth - old(rightButton.width), y := contentRenderY)
      ensures rightButton.x + rightButton.width == contentRenderX + contentRenderWidth
    {
      leftButton.x, leftButton.y := contentRenderX, contentRenderY;
      rightButton.x, rightButton.y := contentRenderX + contentRenderWidth - rightButton.width, contentRenderY;
    }

    /** The colour the selected label is drawn in, for the element's current enabled state. */
    function TextColour(): (r: TextColourChoice)
      reads this, element
      ensures r == NoSelection <==> !element.hasSelectedOption
      ensures element.hasSelectedOption && element.enabled ==>
        r == ChooseTextColour(element.enabledTextColor, enabledStyleRule, element.base.id)
      ensures element.hasSelectedOption && !element.enabled ==>
        r == ChooseTextColour(element.disabledTextColor, disabledStyleRule, element.base.id)
    {
      if !element.hasSelectedOption then NoSelection
      else if element.enabled then ChooseTextColour(element.enabledTextColor, enabledStyleRule, element.base.id)
      else ChooseTextColour(element.disabledTextColor, disabledStyleRule, element.base.id)
    }

    /** Moves both buttons, unless pressed, to HOVER or NORMAL; ACTION leaves them as they are. */
    method SetState(s: NodeState)
      requires Valid()
      modifies this`state, this`leftButtonState, this`rightButtonState
      ensures Valid()
      ensures CurrentInteraction() == AfterSetState(old(CurrentInteraction()), s)
    {
      match s {
        case HOVER =>
          if leftButtonState != ACTION {
            leftButtonState := HOVER;
          }
          if rightButtonState != ACTION {
            rightButtonState := HOVER;
          }
        case NORMAL =>
          if leftButtonState != ACTION {
            leftButtonState := NORMAL;
          }
          if rightButtonState != ACTION {
            rightButtonState := NORMAL;
          }
        case ACTION =>
      }
      state := s;
    }

    /** Presses the button under the point, left first; returns whether the node captured the pointer. */
    method MouseDown(screenX: int, screenY: int) returns (captured: bool)
      requires Valid()
      modifies this`state, this`leftButtonState, this`rightButtonState
      ensures Valid()
      ensures var r := AfterMouseDown(old(CurrentInteraction()), includedInRender && element.enabled,
                                      TargetAt(leftButton.Bounds(), rightButton.Bounds(), screenX as real, screenY as real));
        CurrentInteraction() == r.after && captured == r.captured
    {
      if !includedInRender {
        return false;
      }
      if !element.enabled {
        return false;
      }
      if leftButton.Bounds().Contains(screenX as real, screenY as real) {
        SetState(ACTION);
        leftButtonState := ACTION;
        return true;
      } else if rightButton.Bounds().Contains(screenX as real, screenY as real) {
        SetState(ACTION);
        rightButtonState := ACTION;
        return true;
      }
      return false;
    }

    /** Releases a pressed button, stepping the selection once, and dispatches the end of the action. */
    method MouseUp(screenX: int, screenY: int, button: int)
      requires Valid()
      modifies this`leftButtonState, this`rightButtonState, element`events
      ensures Valid()
      ensures var r := AfterMouseUp(old(CurrentInteraction()));
        CurrentInteraction() == r.after &&
        element.events == old(element.events)
          + (match r.step case Some(PreviousOption) => [StepBack] case Some(NextOption) => [StepForward] case None => [])
          + [ActionEnd(MouseClick(button), screenX, screenY)]
    {
      if leftButtonState == ACTION {
        element.PreviousOption();
        leftButtonState := NORMAL;
      } else if rightButtonState == ACTION {
        element.NextOption();
        rightButtonState := NORMAL;
      }
      EndAction(MouseClick(button), screenX, screenY);
    }

    /** Updates hover states for a pointer move; returns whether the point is inside the node. */
    method MouseMoved(screenX: int, screenY: int) returns (handled: bool)
      requires Valid()
      modifies this`state, this`leftButtonState, this`rightButtonState
      ensures Valid()
      ensures var r := AfterMouseMoved(old(CurrentInteraction()), innerArea.Contains(screenX as real, screenY as real),
                                       TargetAt(leftButton.Bounds(), rightButton.Bounds(), screenX as real, screenY as real));
        CurrentInteraction() == r.after && handled == r.handled
    {
      var px, py := screenX as real, screenY as real;
      if innerArea.Contains(px, py) {
        SetState(HOVER);
        if leftButton.Bounds().Contains(px, py) {
          if leftButtonState != ACTION {
            leftButtonState := HOVER;
          }
          if rightButtonState != ACTION {
            rightButtonState := NORMAL;
          }
        } else if rightButton.Bounds().Contains(px, py) {
          if rightButtonState != ACTION {
            rightButtonState := HOVER;
          }
          if leftButtonState != ACTION {
            leftButtonState := NORMAL;
          }
        } else {
          if rightButtonState != ACTION {
            rightButtonState := NORMAL;
          }
          if leftButtonState != ACTION {
            leftButtonState := NORMAL;
          }
        }
        return true;
      } else {
        SetState(NORMAL);
      }
      return false;
    }

    method BeginAction(trigger: EventTrigger, mouseX: int, mouseY: int)
      requires Valid()
      modifies element`events
      ensures Valid()
      ensures element.events == old(element.events) + [ActionBegin(trigger, mouseX, mouseY)]
    {
      element.NotifyActionListenersOfBeginEvent(trigger, mouseX, mouseY);
    }

    method EndAction(trigger: EventTrigger, mouseX: int, mouseY: int)
      requires Valid()
      modifies element`events
      ensures Valid()
      ensures element.events == old(element.events) + [ActionEnd(trigger, mouseX, mouseY)]
    {
      element.NotifyActionListenersOfEndEvent(trigger, mouseX, mouseY);
    }

    /** Gives both buttons the style's width, then measures the content width. */
    method DeterminePreferredContentWidth() returns (contentWidth: real)
      requires Valid()
      modifies this`hiddenByLayoutRule, leftButton`width, rightButton`width
      ensures Valid()
      ensures leftButton.width == style.buttonWidth && rightButton.width == style.buttonWidth
      ensures var o := PreferredContentWidth(layoutRuleset.IsHiddenByInputSource(), layoutRuleset.PreferredElementWidth(),
                                             style.spacing, old(hiddenByLayoutRule));
        contentWidth == o.contentWidth && hiddenByLayoutRule == o.hiddenByLayoutRule
    {
      leftButton.width := style.buttonWidth;
      rightButton.width := style.buttonWidth;
      if layoutRuleset.IsHiddenByInputSource() {
        return 0.0;
      }
      var layoutRuleResult := layoutRuleset.PreferredElementWidth();
      if layoutRuleResult <= 0.0 {
        hiddenByLayoutRule := true;
        return 0.0;
      } else {
        hiddenByLayoutRule := false;
      }
      contentWidth := layoutRuleResult - style.spacing.paddingLeft - style.spacing.paddingRight
        - style.spacing.marginLeft - style.spacing.marginRight;
    }

    /**
     * Measures the content height from the measured label height, and gives
     * both buttons that height.
     */
    method DeterminePreferredContentHeight(measuredLabelHeight: real) returns (contentHeight: real)
      requires Valid()
      modifies this`labelHeight, leftButton`height, rightButton`height
      ensures Valid()
      ensures labelHeight == measuredLabelHeight
      ensures contentHeight == PreferredContentHeight(measuredLabelHeight, style.minHeight, style.spacing,
                                                      layoutRuleset.PreferredElementHeight(), layoutRuleset.HeightRuleIsAutoSize())
      ensures leftButton.height == contentHeight && rightButton.height == contentHeight
    {
      labelHeight := measuredLabelHeight;
      var sp := style.spacing;
      var result := labelHeight;
      if style.minHeight > 0.0 && result + sp.paddingTop + sp.paddingBottom + sp.marginTop + sp.marginBottom < style.minHeight {
        result := style.minHeight - sp.paddingTop - sp.paddingBottom - sp.marginTop - sp.marginBottom;
      }
      var sizeRuleHeight := layoutRuleset.PreferredElementHeight() - sp.paddingTop - sp.paddingBottom - sp.marginTop - sp.marginBottom;
      if !layoutRuleset.HeightRuleIsAutoSize() {
        result := if sizeRuleHeight > result then sizeRuleHeight else result;
      }
      leftButton.height := result;
      rightButton.height := result;
      contentHeight := result;
    }

    /** The x offset the ruleset prefers; under the pass-through ruleset, the element's own x. */
    function DetermineXOffset(): (r: real)
      requires Valid()
      reads this, layoutRuleset.Reads()
      ensures layoutRuleset.Immediate? ==> r == element.base.x
    {
      layoutRuleset.PreferredElementRelativeX()
    }

    /** The y offset the ruleset prefers; under the pass-through ruleset, the element's own y. */
    function DetermineYOffset(): (r: real)
      requires Valid()
      reads this, layoutRuleset.Reads()
      ensures layoutRuleset.Immediate? ==> r == element.base.y
    {
      layoutRuleset.PreferredElementRelativeY()
    }

    /** Resolves the Select's style and its six sub-styles, each falling back to the default style. */
    method DetermineStyleRule(theme: Theme) returns (rule: SelectStyleRule)
      requires Valid()
      modifies this`leftButtonStyleRule, this`rightButtonStyleRule, this`enabledStyleRule,
               this`disabledStyleRule, this`leftButtonLabelStyleRule, this`rightButtonLabelStyleRule
      ensures Valid()
      ensures rule == theme.selectRule
      ensures leftButtonStyleRule == Some(theme.buttonRule(SubStyleId(rule.leftButtonStyle)))
      ensures rightButtonStyleRule == Some(theme.buttonRule(SubStyleId(rule.rightButtonStyle)))
      ensures enabledStyleRule == Some(theme.labelRule(SubStyleId(rule.enabledLabelStyle)))
      ensures disabledStyleRule == Some(theme.labelRule(SubStyleId(rule.disabledLabelStyle)))
      ensures leftButtonLabelStyleRule == Some(theme.labelRule(SubStyleId(rule.leftButtonLabelStyle)))
      ensures rightButtonLabelStyleRule == Some(theme.labelRule(SubStyleId(rule.rightButtonLabelStyle)))
    {
      rule := theme.selectRule;
      if rule.leftButtonStyle.Some? {
        leftButtonStyleRule := Some(theme.buttonRule(rule.leftButtonStyle.value));
      } else {
        leftButtonStyleRule := Some(theme.buttonRule(DEFAULT_STYLE_ID));
      }
      if rule.rightButtonStyle.Some? {
        rightButtonStyleRule := Some(theme.buttonRule(rule.rightButtonStyle.value));
      } else {
        rightButtonStyleRule := Some(theme.buttonRule(DEFAULT_STYLE_ID));
      }
      if rule.enabledLabelStyle.Some? {
        enabledStyleRule := Some(theme.labelRule(rule.enabledLabelStyle.value));
      } else {
        enabledStyleRule := Some(theme.labelRule(DEFAULT_STYLE_ID));
      }
      if rule.disabledLabelStyle.Some? {
        disabledStyleRule := Some(theme.labelRule(rule.disabledLabelStyle.value));
      } else {
        disabledStyleRule := Some(theme.labelRule(DEFAULT_STYLE_ID));
      }
      if rule.leftButtonLabelStyle.Some? {
        leftButtonLabelStyleRule := Some(theme.labelRule(rule.leftButtonLabelStyle.value));
      } else {
        leftButtonLabelStyleRule := Some(theme.labelRule(DEFAULT_STYLE_ID));
      }
      if rule.rightButtonLabelStyle.Some? {
        rightButtonLabelStyleRule := Some(theme.labelRule(rule.rightButtonLabelStyle.value));
      } else {
        rightButtonLabelStyleRule := Some(theme.labelRule(DEFAULT_STYLE_ID));
      }
    }
  }

  /** Once the label styles are resolved, drawing the selected label never hits the unresolved-style case. */
  lemma ResolvedStylesDecideColour(override: Option<Color>, theme: Theme, id: Option<string>, elementId: Option<string>)
    ensures var c := ChooseTextColour(override, Some(theme.labelRule(SubStyleId(id))), elementId);
      c != StyleUnresolved && (c.MissingColour? <==> override.None? && theme.labelRule(SubStyleId(id)).color.None?)
  {
  }
}
