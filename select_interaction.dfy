/**
 * The two-button interaction protocol of the Select render node, as pure
 * transitions on (node state, left button state, right button state).
 * The node's methods are proved to move their fields exactly as these
 * functions do; the lemmas here state what whole input sequences do.
 */
module SelectInteraction {
  import opened Wrappers
  import opened UiModel

  /** The node's own state and the states of its left and right stepper buttons. */
  datatype Interaction = Interaction(node: NodeState, left: NodeState, right: NodeState)

  /** Which stepper button a point falls on; the left button is tested first. */
  datatype Target = OnLeft | OnRight | OnNeither

  /** The change of selected option that releasing a pressed button performs. */
  datatype OptionStep = PreviousOption | NextOption

  function TargetAt(left: Rect, right: Rect, px: real, py: real): (t: Target)
    ensures t == OnLeft <==> left.Contains(px, py)
    ensures t == OnRight <==> !left.Contains(px, py) && right.Contains(px, py)
  {
    if left.Contains(px, py) then OnLeft
    else if right.Contains(px, py) then OnRight
    else OnNeither
  }

  /** A button moves to `target` unless it is pressed. */
  function Settle(s: NodeState, target: NodeState): NodeState {
    if s == ACTION then ACTION else target
  }

  /**
   * `setState`: the node takes the new state; HOVER and NORMAL are passed
   * on to every button that is not pressed, and ACTION leaves both buttons alone.
   */
  function AfterSetState(i: Interaction, s: NodeState): (r: Interaction)
    ensures r.node == s
    ensures i.left == ACTION ==> r.left == ACTION
    ensures i.right == ACTION ==> r.right == ACTION
    ensures s != ACTION && i.left != ACTION ==> r.left == s
    ensures s != ACTION && i.right != ACTION ==> r.right == s
    ensures s == ACTION ==> r.left == i.left && r.right == i.right
  {
    match s
    case HOVER => Interaction(HOVER, Settle(i.left, HOVER), Settle(i.right, HOVER))
    case NORMAL => Interaction(NORMAL, Settle(i.left, NORMAL), Settle(i.right, NORMAL))
    case ACTION => i.(node := ACTION)
  }

  datatype DownResult = DownResult(after: Interaction, captured: bool)

  /**
   * `mouseDown`: a node that is not rendered or not enabled, or a point on
   * neither button, changes nothing and captures nothing; otherwise the
   * node enters ACTION, exactly the button under the point is pressed and
   * the node captures the pointer.
   */
  function AfterMouseDown(i: Interaction, accepting: bool, t: Target): (r: DownResult)
    ensures r.captured <==> accepting && t != OnNeither
    ensures !r.captured ==> r.after == i
    ensures r.captured ==> r.after.node == ACTION
    ensures r.captured && t == OnLeft ==> r.after.left == ACTION && r.after.right == i.right
    ensures r.captured && t == OnRight ==> r.after.right == ACTION && r.after.left == i.left
  {
    if !accepting then DownResult(i, false)
    else match t
      case OnLeft => DownResult(AfterSetState(i, ACTION).(left := ACTION), true)
      case OnRight => DownResult(AfterSetState(i, ACTION).(right := ACTION), true)
      case OnNeither => DownResult(i, false)
  }

  datatype UpResult = UpResult(after: Interaction, step: Option<OptionStep>)

  /**
   * `mouseUp`: a pressed left button steps back and is released; failing
   * that, a pressed right button steps forward and is released; otherwise
   * nothing changes. At most one step happens.
   */
  function AfterMouseUp(i: Interaction): (r: UpResult)
    ensures r.step == Some(PreviousOption) <==> i.left == ACTION
    ensures r.step == Some(NextOption) <==> i.left != ACTION && i.right == ACTION
    ensures r.step == Some(PreviousOption) ==> r.after == i.(left := NORMAL)
    ensures r.step == Some(NextOption) ==> r.after == i.(right := NORMAL)
    ensures r.step == None ==> r.after == i
  {
    if i.left == ACTION then UpResult(i.(left := NORMAL), Some(PreviousOption))
    else if i.right == ACTION then UpResult(i.(right := NORMAL), Some(NextOption))
    else UpResult(i, None)
  }

  datatype MoveResult = MoveResult(after: Interaction, handled: bool)

  /**
   * `mouseMoved`: handled exactly when the point is inside the node. A
   * pressed button is never changed; any other button hovers when it is
   * the one under the point inside the node, and is NORMAL otherwise.
   */
  function AfterMouseMoved(i: Interaction, inside: bool, t: Target): (r: MoveResult)
    ensures r.handled == inside
    ensures r.after.node == if inside then HOVER else NORMAL
    ensures i.left == ACTION ==> r.after.left == ACTION
    ensures i.right == ACTION ==> r.after.right == ACTION
    ensures i.left != ACTION ==> r.after.left == if inside && t == OnLeft then HOVER else NORMAL
    ensures i.right != ACTION ==> r.after.right == if inside && t == OnRight then HOVER else NORMAL
  {
    if inside then
      var h := AfterSetState(i, HOVER);
      var after := match t
        case OnLeft => h.(left := Settle(h.left, HOVER), right := Settle(h.right, NORMAL))
        case OnRight => h.(right := Settle(h.right, HOVER), left := Settle(h.left, NORMAL))
        case OnNeither => h.(right := Settle(h.right, NORMAL), left := Settle(h.left, NORMAL));
      MoveResult(after, true)
    else
      MoveResult(AfterSetState(i, NORMAL), false)
  }

  /** One input the node receives, with its hit-test already done. */
  datatype Input =
    | SetStateTo(s: NodeState)
    | Press(accepting: bool, at: Target)
    | Move(inside: bool, at: Target)
    | Release

  /** The state after one input, and the option steps it performed. */
  function Apply(i: Interaction, e: Input): (Interaction, seq<OptionStep>) {
    match e
    case SetStateTo(s) => (AfterSetState(i, s), [])
    case Press(accepting, at) => (AfterMouseDown(i, accepting, at).after, [])
    case Move(inside, at) => (AfterMouseMoved(i, inside, at).after, [])
    case Release =>
      var u := AfterMouseUp(i);
      (u.after, match u.step case Some(st) => [st] case None => [])
  }

  /** The state after a sequence of inputs, and every option step performed, in order. */
  function Run(i: Interaction, es: seq<Input>): (Interaction, seq<OptionStep>)
    decreases |es|
  {
    if es == [] then (i, [])
    else
      var first := Apply(i, es[0]);
      var rest := Run(first.0, es[1..]);
      (rest.0, first.1 + rest.1)
  }

  lemma RunOne(i: Interaction, e: Input)
    ensures Run(i, [e]) == Apply(i, e)
  {
    assert [e][1..] == [];
    assert Apply(i, e).1 + [] == Apply(i, e).1;
  }

  function Releases(es: seq<Input>): nat
    decreases |es|
  {
    if es == [] then 0 else (if es[0].Release? then 1 else 0) + Releases(es[1..])
  }

  /** Only hover and state changes: nothing that presses or releases a button. */
  ghost predicate NoPressOrRelease(es: seq<Input>) {
    forall k :: 0 <= k < |es| ==> es[k].SetStateTo? || es[k].Move?
  }

  lemma {:induction false} RunSplit(i: Interaction, a: seq<Input>, b: seq<Input>)
    ensures Run(i, a + b).0 == Run(Run(i, a).0, b).0
    ensures Run(i, a + b).1 == Run(i, a).1 + Run(Run(i, a).0, b).1
    decreases |a|
  {
    if a == [] {
      assert a + b == b;
    } else {
      var first := Apply(i, a[0]);
      assert (a + b)[0] == a[0];
      assert (a + b)[1..] == a[1..] + b;
      RunSplit(first.0, a[1..], b);
      var mid := Run(first.0, a[1..]);
      var tail := Run(mid.0, b);
      assert Run(i, a) == (mid.0, first.1 + mid.1);
      assert Run(i, a + b) == (tail.0, first.1 + (mid.1 + tail.1));
      assert first.1 + (mid.1 + tail.1) == (first.1 + mid.1) + tail.1;
    }
  }

  /** Every release steps the selection at most once, and nothing else steps it. */
  lemma {:induction false} StepsAtMostReleases(i: Interaction, es: seq<Input>)
    ensures |Run(i, es).1| <= Releases(es)
    decreases |es|
  {
    if es != [] {
      StepsAtMostReleases(Apply(i, es[0]).0, es[1..]);
    }
  }

  /**
   * A pressed button stays pressed until a release: hovering, leaving the
   * node and state changes never un-press it, and no step happens meanwhile.
   */
  lemma {:induction false} PressedUntilRelease(i: Interaction, es: seq<Input>)
    requires forall k :: 0 <= k < |es| ==> !es[k].Release?
    ensures i.left == ACTION ==> Run(i, es).0.left == ACTION
    ensures i.right == ACTION ==> Run(i, es).0.right == ACTION
    ensures Run(i, es).1 == []
    decreases |es|
  {
    if es != [] {
      PressedUntilRelease(Apply(i, es[0]).0, es[1..]);
    }
  }

  /** Hover and state changes never press a button that was not pressed. */
  lemma {:induction false} NeverPressedWithoutPress(i: Interaction, es: seq<Input>)
    requires NoPressOrRelease(es)
    requires i.left != ACTION && i.right != ACTION
    ensures Run(i, es).0.left != ACTION && Run(i, es).0.right != ACTION
    ensures Run(i, es).1 == []
    decreases |es|
  {
    if es != [] {
      assert es[0].SetStateTo? || es[0].Move?;
      NeverPressedWithoutPress(Apply(i, es[0]).0, es[1..]);
    }
  }

  /**
   * Pressing one stepper button on an idle node, moving about, and
   * releasing steps the selection exactly once: back for the left button,
   * forward for the right one. Both buttons end up unpressed.
   */
  lemma PressThenReleaseStepsOnce(i: Interaction, at: Target, moves: seq<Input>)
    requires i.left != ACTION && i.right != ACTION
    requires at != OnNeither
    requires NoPressOrRelease(moves)
    ensures Run(i, [Press(true, at)] + moves + [Release]).1
      == [if at == OnLeft then PreviousOption else NextOption]
    ensures var final := Run(i, [Press(true, at)] + moves + [Release]).0;
      final.left != ACTION && final.right != ACTION
  {
    var pressed := Apply(i, Press(true, at)).0;
    RunOne(i, Press(true, at));
    PressedUntilRelease(pressed, moves);
    var held := Run(pressed, moves).0;
    assert at == OnLeft ==> held.right != ACTION by {
      if at == OnLeft {
        NeverPressedRight(pressed, moves);
      }
    }
    assert at == OnRight ==> held.left != ACTION by {
      if at == OnRight {
        NeverPressedLeft(pressed, moves);
      }
    }
    RunSplit(i, [Press(true, at)], moves);
    RunSplit(i, [Press(true, at)] + moves, [Release]);
    RunOne(held, Release);
  }

  /** Hover and state changes never press the left button. */
  lemma {:induction false} NeverPressedLeft(i: Interaction, es: seq<Input>)
    requires NoPressOrRelease(es)
    requires i.left != ACTION
    ensures Run(i, es).0.left != ACTION
    decreases |es|
  {
    if es != [] {
      assert es[0].SetStateTo? || es[0].Move?;
      NeverPressedLeft(Apply(i, es[0]).0, es[1..]);
    }
  }

  /** Hover and state changes never press the right button. */
  lemma {:induction false} NeverPressedRight(i: Interaction, es: seq<Input>)
    requires NoPressOrRelease(es)
    requires i.right != ACTION
    ensures Run(i, es).0.right != ACTION
    decreases |es|
  {
    if es != [] {
      assert es[0].SetStateTo? || es[0].Move?;
      NeverPressedRight(Apply(i, es[0]).0, es[1..]);
    }
  }

  /** A press that is refused or misses both buttons leaves a following release without effect. */
  lemma MissedPressStepsNothing(i: Interaction, accepting: bool, at: Target)
    requires i.left != ACTION && i.right != ACTION
    requires !accepting || at == OnNeither
    ensures Run(i, [Press(accepting, at), Release]).1 == []
    ensures Run(i, [Press(accepting, at), Release]).0 == i
  {
    var es := [Press(accepting, at), Release];
    assert es[1..] == [Release];
    RunOne(i, Release);
  }
}
