/** The small pieces of editor state around the text layer: the overwrite
    mode of the text area (toggled with the Insert key), the show/hide toggle
    of the trace image's opacity, and the target clamp of the smooth
    wheel scroller. */
module Editor {
  import opened Numeric

  // ---------------------------------------------------------------------------
  // Overwrite mode.

  /** setRangeText(text, start, end): the characters in [start, end) replaced
      by text. */
  function SetRangeText(value: string, text: string, start: nat, end: nat): (r: string)
    requires start <= end <= |value|
    ensures |r| == |value| - (end - start) + |text|
    ensures r[..start] == value[..start] && r[start..start + |text|] == text
    ensures r[start + |text|..] == value[end..]
  {
    value[..start] + text + value[end..]
  }

  /** Overwriting the character at start with c: the text keeps its length and
      only position start changes. */
  lemma OverwriteOneCharacter(value: string, start: nat, c: char)
    requires start < |value|
    ensures |SetRangeText(value, [c], start, start + 1)| == |value|
    ensures SetRangeText(value, [c], start, start + 1) == value[start := c]
  {
    var r := SetRangeText(value, [c], start, start + 1);
    assert r[..start] == value[..start] && r[start + 1..] == value[start + 1..];
    forall i | 0 <= i < |value|
      ensures r[i] == value[start := c][i]
    {
      if i < start {
        assert r[i] == r[..start][i];
      } else if i > start {
        assert r[i] == r[start + 1..][i - start - 1];
      } else {
        assert r[start..start + 1] == [c];
      }
    }
  }

  /** Whether a key press is one the overwrite handler takes over: a single
      character with no Ctrl, Alt or Meta, with the caret collapsed in front of
      a character that is not a line break. */
  predicate TakesOver(value: string, start: nat, end: nat, key: string, ctrl: bool, alt: bool, meta: bool)
    ensures TakesOver(value, start, end, key, ctrl, alt, meta) ==>
              start < |value| && |SetRangeText(value, key, start, start + 1)| == |value|
  {
    !ctrl && !alt && !meta && |key| == 1 && start == end && start < |value| && value[start] != '\n'
  }

  /** The text area of the layer, with the overwrite flag of its key handler. */
  class TextLayer {
    var value: string
    var selectionStart: nat
    var selectionEnd: nat
    var isOverwriteMode: bool

    ghost predicate Valid()
      reads this
    {
      selectionStart <= selectionEnd <= |value|
    }

    /** A layer holding some text with the caret at its start; overwrite mode
        starts off. */
    constructor (initial: string)
      ensures Valid() && value == initial && selectionStart == selectionEnd == 0 && !isOverwriteMode
    {
      value, selectionStart, selectionEnd, isOverwriteMode := initial, 0, 0, false;
    }

    /** The keydown handler. "Insert" flips the mode; in overwrite mode a key
        the handler takes over replaces the character under the caret, moves
        the caret past it and cancels the default insertion. Anything else is
        left to the browser's default action. */
    method OnKeyDown(key: string, ctrl: bool, alt: bool, meta: bool) returns (prevented: bool)
      requires Valid()
      modifies this
      ensures Valid()
      ensures key == "Insert" ==>
                isOverwriteMode == !old(isOverwriteMode) && !prevented &&
                value == old(value) && selectionStart == old(selectionStart) && selectionEnd == old(selectionEnd)
      ensures key != "Insert" ==> isOverwriteMode == old(isOverwriteMode)
      ensures prevented <==>
                key != "Insert" && old(isOverwriteMode) &&
                TakesOver(old(value), old(selectionStart), old(selectionEnd), key, ctrl, alt, meta)
      ensures prevented ==>
                |value| == |old(value)| && value == old(value)[old(selectionStart) := key[0]] &&
                selectionStart == selectionEnd == old(selectionStart) + 1
      ensures !prevented ==> value == old(value)
      ensures !prevented ==> selectionStart == old(selectionStart) && selectionEnd == old(selectionEnd)
    {
      prevented := false;
      if key == "Insert" {
        isOverwriteMode := !isOverwriteMode;
      } else if isOverwriteMode && !ctrl && !alt && !meta && |key| == 1 {
        var start := selectionStart;
        var end := selectionEnd;
        var val := value;
        if start == end && start < |val| && val[start] != '\n' {
          prevented := true;
          OverwriteOneCharacter(val, start, key[0]);
          value := SetRangeText(val, key, start, start + 1);
          selectionStart, selectionEnd := start + |key|, start + |key|;
        }
      }
    }
  }

  // ---------------------------------------------------------------------------
  // The opacity toggle.

  /** The state behind the eye button: whether the image is shown, the opacity
      slider's value, and the value saved when the image was hidden. */
  datatype OpacityState = OpacityState(visible: bool, opacity: real, saved: real)

  /** A click on the eye button. */
  function Toggled(st: OpacityState): (r: OpacityState)
    ensures r.visible == !st.visible
    ensures !r.visible ==> r.opacity == 0.0 && r.saved == st.opacity
    ensures r.visible ==> r.opacity == st.saved && r.saved == st.saved
  {
    if st.visible then OpacityState(false, 0.0, st.opacity)
    else OpacityState(true, st.saved, st.saved)
  }

  /** Moving the opacity slider to v: the image is shown again at v, and the
      saved value is kept. */
  function SliderMoved(st: OpacityState, v: real): (r: OpacityState)
    ensures r.visible && r.opacity == v && r.saved == st.saved
  {
    OpacityState(true, v, st.saved)
  }

  /** Hiding and showing again brings back the opacity the image had. */
  lemma HideThenShow(st: OpacityState)
    requires st.visible
    ensures Toggled(Toggled(st)).visible && Toggled(Toggled(st)).opacity == st.opacity
  {
  }

  /** Showing and hiding again is no change at all while hidden at opacity 0. */
  lemma ShowThenHide(st: OpacityState)
    requires !st.visible && st.opacity == 0.0
    ensures Toggled(Toggled(st)) == st
  {
  }

  /** A hidden image always has opacity 0, whatever sequence of clicks and
      slider moves led there. */
  predicate HiddenAtZero(st: OpacityState) {
    !st.visible ==> st.opacity == 0.0
  }

  lemma HiddenAtZeroKept(st: OpacityState, v: real)
    ensures HiddenAtZero(Toggled(st)) && HiddenAtZero(SliderMoved(st, v))
  {
  }

  /** The eye button, the opacity slider and the trace image's style. */
  class OpacityControl {
    var imgVisible: bool
    var opacity: real
    var lastOpacityValue: real
    var imageOpacity: real

    function State(): OpacityState
      reads this
    {
      OpacityState(imgVisible, opacity, lastOpacityValue)
    }

    ghost predicate Valid()
      reads this
    {
      HiddenAtZero(State()) && imageOpacity == opacity
    }

    constructor (initial: real)
      ensures Valid() && imgVisible && opacity == initial && lastOpacityValue == initial
    {
      imgVisible, opacity, lastOpacityValue, imageOpacity := true, initial, initial, initial;
    }

    /** The click handler of the eye button. */
    method OnToggleClick()
      requires Valid()
      modifies this
      ensures Valid() && State() == Toggled(old(State()))
    {
      imgVisible := !imgVisible;
      if !imgVisible {
        lastOpacityValue := opacity;
        opacity := 0.0;
      } else {
        opacity := lastOpacityValue;
      }
      imageOpacity := opacity;
    }

    /** The slider's input handler, after the slider has moved to v. */
    method OnOpacityInput(v: real)
      requires Valid()
      modifies this
      ensures Valid() && State() == SliderMoved(old(State()), v)
    {
      opacity := v;
      if !imgVisible {
        imgVisible := true;
      }
      imageOpacity := opacity;
    }
  }

  // ---------------------------------------------------------------------------
  // The smooth scroller's wheel handler.

  /** Math.max(0, Math.min(t, max)). */
  function ClampScroll(t: real, max: real): (r: real)
    ensures 0.0 <= r
    ensures max >= 0.0 ==> r <= max
    ensures max < 0.0 ==> r == 0.0
    ensures 0.0 <= t <= max ==> r == t
    ensures t < 0.0 ==> r == 0.0
    ensures 0.0 <= max < t ==> r == max
  {
    MaxReal(0.0, MinReal(t, max))
  }

  /** Clamping an already clamped target changes nothing. */
  lemma ClampScrollIdempotent(t: real, max: real)
    ensures ClampScroll(ClampScroll(t, max), max) == ClampScroll(t, max)
  {
  }

  /** Clamping keeps the order of targets. */
  lemma ClampScrollMonotone(t1: real, t2: real, max: real)
    requires t1 <= t2
    ensures ClampScroll(t1, max) <= ClampScroll(t2, max)
  {
  }

  /** The wheel delta in pixels: lines count 40 pixels, pages one client
      height. */
  function WheelPixels(deltaY: real, deltaMode: int, clientHeight: real): (d: real)
    ensures deltaMode == 1 ==> d == 40.0 * deltaY
    ensures deltaMode == 2 ==> d == deltaY * clientHeight
    ensures deltaMode != 1 && deltaMode != 2 ==> d == deltaY
  {
    if deltaMode == 1 then deltaY * 40.0
    else if deltaMode == 2 then deltaY * clientHeight
    else deltaY
  }

  /** The scroll geometry of the element being scrolled, which the wheel
      handler reads but does not change. */
  datatype Viewport = Viewport(scrollLeft: real, scrollTop: real, scrollWidth: real, scrollHeight: real,
                               clientWidth: real, clientHeight: real)

  function MaxScrollX(v: Viewport): real { v.scrollWidth - v.clientWidth }
  function MaxScrollY(v: Viewport): real { v.scrollHeight - v.clientHeight }

  /** The scroller's targets after one wheel event: from the current targets
      while an animation runs, from the element's scroll position otherwise,
      moved by the delta on the axis Shift selects and clamped into the
      scrollable range. */
  function WheelTargets(targetX: real, targetY: real, animating: bool, v: Viewport,
                        deltaY: real, deltaMode: int, shift: bool): (t: (real, real))
    ensures 0.0 <= t.0 && (MaxScrollX(v) >= 0.0 ==> t.0 <= MaxScrollX(v))
    ensures 0.0 <= t.1 && (MaxScrollY(v) >= 0.0 ==> t.1 <= MaxScrollY(v))
    ensures shift ==> t.1 == ClampScroll(if animating then targetY else v.scrollTop, MaxScrollY(v))
    ensures !shift ==> t.0 == ClampScroll(if animating then targetX else v.scrollLeft, MaxScrollX(v))
    ensures shift ==> t.0 == ClampScroll((if animating then targetX else v.scrollLeft) +
                                         WheelPixels(deltaY, deltaMode, v.clientHeight), MaxScrollX(v))
    ensures !shift ==> t.1 == ClampScroll((if animating then targetY else v.scrollTop) +
                                          WheelPixels(deltaY, deltaMode, v.clientHeight), MaxScrollY(v))
  {
    var baseX := if animating then targetX else v.scrollLeft;
    var baseY := if animating then targetY else v.scrollTop;
    var delta := WheelPixels(deltaY, deltaMode, v.clientHeight);
    var x := if shift then baseX + delta else baseX;
    var y := if shift then baseY else baseY + delta;
    (ClampScroll(x, MaxScrollX(v)), ClampScroll(y, MaxScrollY(v)))
  }

  /** Scrolling down by a non-negative delta never moves the vertical target
      up, and never past the bottom. */
  lemma WheelDownMonotone(targetY: real, v: Viewport, deltaY: real, deltaMode: int)
    requires deltaY >= 0.0 && v.clientHeight >= 0.0
    requires 0.0 <= targetY && (MaxScrollY(v) >= 0.0 ==> targetY <= MaxScrollY(v))
    ensures var t := WheelTargets(0.0, targetY, true, v, deltaY, deltaMode, false);
              targetY <= t.1 || MaxScrollY(v) < 0.0
  {
    var d := WheelPixels(deltaY, deltaMode, v.clientHeight);
    assert d >= 0.0 by {
      if deltaMode == 2 {
        MulNonNegative(deltaY, v.clientHeight);
      }
    }
    ClampScrollMonotone(targetY, targetY + d, MaxScrollY(v));
  }

  lemma MulNonNegative(a: real, b: real)
    requires a >= 0.0 && b >= 0.0
    ensures a * b >= 0.0
  {
  }

  /** The wheel-driven part of the smooth scroller; the easing loop that
      moves the element towards the targets is not part of this model. */
  class SmoothScroller {
    var targetX: real
    var targetY: real
    var isAnimating: bool

    constructor (v: Viewport)
      ensures targetX == v.scrollLeft && targetY == v.scrollTop && !isAnimating
    {
      targetX, targetY, isAnimating := v.scrollLeft, v.scrollTop, false;
    }

    /** The wheel handler: the default scroll is cancelled, the targets move
        and the animation is started if it is not running. */
    method OnWheel(v: Viewport, deltaY: real, deltaMode: int, shift: bool)
      modifies this
      ensures (targetX, targetY) ==
              WheelTargets(old(targetX), old(targetY), old(isAnimating), v, deltaY, deltaMode, shift)
      ensures isAnimating
    {
      var delta := WheelPixels(deltaY, deltaMode, v.clientHeight);
      if !isAnimating {
        targetX := v.scrollLeft;
        targetY := v.scrollTop;
      }
      if shift {
        targetX := targetX + delta;
      } else {
        targetY := targetY + delta;
      }
      var maxScrollY := MaxScrollY(v);
      var maxScrollX := MaxScrollX(v);
      targetY := ClampScroll(targetY, maxScrollY);
      targetX := ClampScroll(targetX, maxScrollX);
      if !isAnimating {
        isAnimating := true;
      }
    }
  }
}
