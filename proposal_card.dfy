/** The "Yes/No mischief" controller of the proposal card (ProposalCard.jsx).

    The card holds six pieces of React state: the number of No attempts, the
    No button's label, its position, the Yes button's scale, whether the No
    button is shown, and whether the proposal was accepted. A seventh field
    records the 500 ms timer that hides the No button after the last attempt
    while it is pending.

    `State` and the transition functions below are the reference model; the
    class `ProposalCard` at the end runs the handlers step by step and is
    proved to follow them. Every `Math.random()` draw is a parameter in
    [0, 1); the container's measured width is a parameter too, `None` when
    the container ref is not attached. */
module Proposal {
  import opened Optional
  import Celebration

  /** The number of No attempts after which the No button gives up. */
  const MaxAttempts: nat := 3
  /** How much the Yes button grows per attempt. */
  const GrowthFactor: real := 0.2
  /** How much the No button shrinks per attempt, and its smallest scale. */
  const ShrinkFactor: real := 0.1
  const MinNoScale: real := 0.7
  /** The assumed width of the No button, in pixels. */
  const NoButtonWidth: real := 120.0
  /** The vertical band the No button is moved into: [MinTop, MinTop + MaxY). */
  const MaxY: real := 150.0
  const MinTop: real := 60.0

  const InitialText: string := "No"
  const NoButtonTexts: seq<string> := [
    "Are you sure?",
    "Really?",
    "Think again!",
    "Wrong button!",
    "Try again!",
    "Nope, try Yes!",
    "Oops!",
    "Not this one!",
    "Missed!",
    "Nice try!"
  ]

  /** A value `Math.random()` can return. */
  predicate IsDraw(r: real) {
    0.0 <= r < 1.0
  }

  /** The point `Math.random() * range` that a draw picks in a range. */
  function Scaled(r: real, range: real): real {
    r * range
  }

  /** A draw picks a point of [0, range) when the range is positive and of
      (range, 0] when it is negative. */
  lemma DrawScales(r: real, range: real)
    requires IsDraw(r)
    ensures range > 0.0 ==> 0.0 <= Scaled(r, range) < range
    ensures range == 0.0 ==> Scaled(r, range) == 0.0
    ensures range < 0.0 ==> range < Scaled(r, range) <= 0.0
  {
    if range > 0.0 {
      assert (1.0 - r) * range > 0.0;
    } else if range < 0.0 {
      assert (1.0 - r) * -range > 0.0;
    }
  }

  /** Each point of [0, range) is picked by the draw point / range. */
  lemma DrawFromRatio(point: real, range: real)
    requires 0.0 <= point < range
    ensures IsDraw(point / range) && Scaled(point / range, range) == point
  {
  }

  // ---------------------------------------------------------------------
  // Choosing the next label (getRandomText)
  // ---------------------------------------------------------------------

  predicate Distinct(s: seq<string>) {
    forall i, j :: 0 <= i < j < |s| ==> s[i] != s[j]
  }

  /** `s.filter(text => text !== x)`. */
  function Without(s: seq<string>, x: string): (r: seq<string>)
    ensures |r| <= |s|
    ensures forall y :: y in r <==> y in s && y != x
  {
    if s == [] then []
    else if s[0] == x then Without(s[1..], x)
    else [s[0]] + Without(s[1..], x)
  }

  /** In a list without repetitions, filtering out one value removes one
      entry if the value is present and none otherwise. */
  lemma {:induction false} WithoutLength(s: seq<string>, x: string)
    requires Distinct(s)
    ensures |Without(s, x)| == if x in s then |s| - 1 else |s|
  {
    if s != [] {
      assert Distinct(s[1..]) by {
        forall i, j | 0 <= i < j < |s[1..]| ensures s[1..][i] != s[1..][j] {
          assert s[1..][i] == s[i + 1] && s[1..][j] == s[j + 1];
        }
      }
      WithoutLength(s[1..], x);
      if s[0] == x {
        assert x !in s[1..] by {
          forall k | 0 <= k < |s[1..]| ensures s[1..][k] != x {
            assert s[1..][k] == s[k + 1];
          }
        }
      } else {
        assert x in s <==> x in s[1..] by {
          if x in s {
            var k :| 0 <= k < |s| && s[k] == x;
            assert s[1..][k - 1] == x;
          }
        }
      }
    }
  }

  /** Filtering out a value that is absent changes nothing. */
  lemma {:induction false} WithoutAbsent(s: seq<string>, x: string)
    requires x !in s
    ensures Without(s, x) == s
  {
    if s != [] {
      assert x !in s[1..];
      WithoutAbsent(s[1..], x);
      assert [s[0]] + s[1..] == s;
    }
  }

  lemma TextsDistinct()
    ensures Distinct(NoButtonTexts)
    ensures InitialText !in NoButtonTexts
  {
  }

  /** The labels a No click may pick from when `current` is shown. */
  function Available(current: string): (texts: seq<string>)
    ensures |NoButtonTexts| - 1 <= |texts| <= |NoButtonTexts|
    ensures forall t :: t in texts <==> t in NoButtonTexts && t != current
  {
    TextsDistinct();
    WithoutLength(NoButtonTexts, current);
    Without(NoButtonTexts, current)
  }

  /** The index `Math.floor(r * n)` of a draw `r` into a list of length `n`. */
  function DrawIndex(r: real, n: nat): (i: nat)
    requires IsDraw(r) && n > 0
    ensures i < n
    ensures i as real <= Scaled(r, n as real) < i as real + 1.0
  {
    DrawScales(r, n as real);
    Scaled(r, n as real).Floor
  }

  /** `getRandomText`: a label drawn from the list without the current one,
      so it always differs from the current label. */
  function RandomText(current: string, r: real): (text: string)
    requires IsDraw(r)
    ensures text in NoButtonTexts
    ensures text != current
  {
    var texts := Available(current);
    texts[DrawIndex(r, |texts|)]
  }

  /** The initial label is not in the list, so on the first click every
      entry is eligible. */
  lemma FirstClickAllEligible()
    ensures Available(InitialText) == NoButtonTexts
  {
    TextsDistinct();
    WithoutAbsent(NoButtonTexts, InitialText);
  }

  /** Every eligible label is picked by some draw: the i-th of the n eligible
      labels by the draw i / n. */
  lemma EveryEligibleTextDrawn(current: string, i: nat)
    requires i < |Available(current)|
    ensures IsDraw(i as real / |Available(current)| as real)
    ensures RandomText(current, i as real / |Available(current)| as real) == Available(current)[i]
  {
    var n := |Available(current)| as real;
    DrawFromRatio(i as real, n);
    assert DrawIndex(i as real / n, |Available(current)|) == i;
  }

  // ---------------------------------------------------------------------
  // Scales
  // ---------------------------------------------------------------------

  /** The Yes button's scale after `n` attempts: `1 + n * 0.2`. */
  function YesScale(n: nat): (scale: real)
    ensures scale >= 1.0
    ensures n <= MaxAttempts ==> scale <= 1.6
  {
    1.0 + n as real * GrowthFactor
  }

  lemma YesScaleMonotone(m: nat, n: nat)
    requires m <= n
    ensures YesScale(m) <= YesScale(n)
  {
  }

  /** The No button's animated scale, `Math.max(0.7, 1 - n * 0.1)`: never
      above 1 or below 0.7, full size only before the first attempt and at
      its smallest from the third attempt on. */
  function NoScale(n: nat): (scale: real)
    ensures MinNoScale <= scale <= 1.0
    ensures scale == 1.0 <==> n == 0
    ensures scale == MinNoScale <==> n >= MaxAttempts
  {
    var shrunk := 1.0 - n as real * ShrinkFactor;
    if MinNoScale >= shrunk then MinNoScale else shrunk
  }

  lemma NoScaleAntitone(m: nat, n: nat)
    requires m <= n
    ensures NoScale(n) <= NoScale(m)
  {
  }

  // ---------------------------------------------------------------------
  // Position (moveNoButton)
  // ---------------------------------------------------------------------

  /** A CSS length: the initial left offset is a percentage, every other
      offset is in pixels. */
  datatype Length = Px(px: real) | Percent(percent: real)

  datatype Style = Style(left: Length, top: Length)

  const InitialStyle: Style := Style(Percent(60.0), Px(70.0))

  /** A pixel position inside the band moveNoButton draws from for a
      container of the given width. The horizontal range is `width - 120`
      and is not clamped: for a container narrower than the button it lies
      left of the container's edge. */
  predicate Placed(style: Style, width: real) {
    && style.left.Px? && style.top.Px?
    && MinTop <= style.top.px < MinTop + MaxY
    && (width > NoButtonWidth ==> 0.0 <= style.left.px < width - NoButtonWidth)
    && (width == NoButtonWidth ==> style.left.px == 0.0)
    && (width < NoButtonWidth ==> width - NoButtonWidth < style.left.px <= 0.0)
  }

  /** The position drawn from `rx` and `ry`. */
  function RelocatedStyle(width: real, rx: real, ry: real): (style: Style)
    requires IsDraw(rx) && IsDraw(ry)
    ensures Placed(style, width)
  {
    var maxX := width - NoButtonWidth;
    DrawScales(rx, maxX);
    DrawScales(ry, MaxY);
    Style(Px(Scaled(rx, maxX)), Px(Scaled(ry, MaxY) + MinTop))
  }

  /** Every position of the band is drawn by some pair of draws. */
  lemma EveryPlaceDrawn(width: real, x: real, y: real)
    requires width > NoButtonWidth
    requires 0.0 <= x < width - NoButtonWidth && MinTop <= y < MinTop + MaxY
    ensures IsDraw(x / (width - NoButtonWidth)) && IsDraw((y - MinTop) / MaxY)
    ensures RelocatedStyle(width, x / (width - NoButtonWidth), (y - MinTop) / MaxY) == Style(Px(x), Px(y))
  {
    DrawFromRatio(x, width - NoButtonWidth);
    DrawFromRatio(y - MinTop, MaxY);
  }

  /** For a container narrower than the button the band lies left of the
      container's edge, and every position of it is drawn as well. */
  lemma EveryNarrowPlaceDrawn(width: real, x: real, y: real)
    requires width < NoButtonWidth
    requires width - NoButtonWidth < x <= 0.0 && MinTop <= y < MinTop + MaxY
    ensures IsDraw(x / (width - NoButtonWidth)) && IsDraw((y - MinTop) / MaxY)
    ensures RelocatedStyle(width, x / (width - NoButtonWidth), (y - MinTop) / MaxY) == Style(Px(x), Px(y))
  {
    var range := width - NoButtonWidth;
    DrawFromRatio(-x, -range);
    assert x / range == -x / -range;
    DrawFromRatio(y - MinTop, MaxY);
  }

  /** `moveNoButton`, run with the attempt count its closure captured: it
      leaves the position alone when the container is not attached or the
      count is at the cap, and otherwise moves the button into the band. */
  function MovedStyle(style: Style, attempts: nat, container: Option<real>, rx: real, ry: real): (moved: Style)
    requires IsDraw(rx) && IsDraw(ry)
    ensures container.None? || attempts >= MaxAttempts ==> moved == style
    ensures container.Some? && attempts < MaxAttempts ==> Placed(moved, container.value)
  {
    if container.None? || attempts >= MaxAttempts then style
    else RelocatedStyle(container.value, rx, ry)
  }

  // ---------------------------------------------------------------------
  // The card's state and its handlers
  // ---------------------------------------------------------------------

  datatype State = State(
    noAttempts: nat,
    noButtonText: string,
    noButtonStyle: Style,
    yesButtonSize: real,
    showNoButton: bool,
    accepted: bool,
    hideTimerPending: bool)

  const Initial: State := State(0, InitialText, InitialStyle, 1.0, true, false, false)

  /** The label is "No" before the first attempt and one of the list's
      phrases from then on. */
  predicate LabelFits(attempts: nat, text: string) {
    if attempts == 0 then text == InitialText else text in NoButtonTexts
  }

  /** What holds of every state the card can reach. */
  predicate Inv(s: State) {
    && s.noAttempts <= MaxAttempts
    && s.yesButtonSize == YesScale(s.noAttempts)
    && (s.hideTimerPending ==> s.noAttempts == MaxAttempts && s.showNoButton)
    && (!s.showNoButton ==> s.noAttempts == MaxAttempts)
    && (s.noAttempts == MaxAttempts ==> s.hideTimerPending || !s.showNoButton)
  }

  lemma InitialInv()
    ensures Inv(Initial)
    ensures LabelFits(Initial.noAttempts, Initial.noButtonText)
  {
  }

  /** `handleNoClick`. At the cap it does nothing. Otherwise it counts the
      attempt, picks a new label, grows the Yes button, relocates the No
      button and, on the last attempt, starts the hide timer. The relocation
      uses the count from before the click (the `moveNoButton` closure was
      created for it), so the third click still moves the button. */
  function NoClicked(s: State, container: Option<real>, rText: real, rx: real, ry: real): (t: State)
    requires IsDraw(rText) && IsDraw(rx) && IsDraw(ry)
    ensures s.noAttempts >= MaxAttempts ==> t == s
    ensures s.noAttempts < MaxAttempts ==>
              && t.noAttempts == s.noAttempts + 1
              && t.noButtonText != s.noButtonText
              && t.noButtonText in NoButtonTexts
              && t.yesButtonSize == YesScale(t.noAttempts)
              && (container.None? ==> t.noButtonStyle == s.noButtonStyle)
              && (container.Some? ==> Placed(t.noButtonStyle, container.value))
              && t.hideTimerPending == (s.hideTimerPending || t.noAttempts == MaxAttempts)
              && t.showNoButton == s.showNoButton
              && t.accepted == s.accepted
  {
    if s.noAttempts >= MaxAttempts then s
    else
      var newAttempts := s.noAttempts + 1;
      s.(noAttempts := newAttempts,
         noButtonText := RandomText(s.noButtonText, rText),
         yesButtonSize := YesScale(newAttempts),
         noButtonStyle := MovedStyle(s.noButtonStyle, s.noAttempts, container, rx, ry),
         hideTimerPending := if newAttempts >= MaxAttempts then true else s.hideTimerPending)
  }

  lemma NoClickedInv(s: State, container: Option<real>, rText: real, rx: real, ry: real)
    requires Inv(s) && IsDraw(rText) && IsDraw(rx) && IsDraw(ry)
    ensures Inv(NoClicked(s, container, rText, rx, ry))
  {
  }

  /** The relocation of the third click depends on the stale closure: had
      `moveNoButton` seen the incremented count, the button would stay put. */
  lemma ThirdClickStillMoves(s: State, width: real, rText: real, rx: real, ry: real)
    requires IsDraw(rText) && IsDraw(rx) && IsDraw(ry)
    requires s.noAttempts == MaxAttempts - 1
    ensures NoClicked(s, Some(width), rText, rx, ry).noButtonStyle == RelocatedStyle(width, rx, ry)
    ensures MovedStyle(s.noButtonStyle, s.noAttempts + 1, Some(width), rx, ry) == s.noButtonStyle
  {
  }

  /** `handleNoHover`: on a desktop below the cap it relocates the button;
      it never touches anything but the position. */
  function NoHovered(s: State, isMobile: bool, container: Option<real>, rx: real, ry: real): (t: State)
    requires IsDraw(rx) && IsDraw(ry)
    ensures t == s.(noButtonStyle := t.noButtonStyle)
    ensures isMobile || s.noAttempts >= MaxAttempts || container.None? ==> t == s
    ensures !isMobile && s.noAttempts < MaxAttempts && container.Some? ==> Placed(t.noButtonStyle, container.value)
  {
    if !isMobile && s.noAttempts < MaxAttempts then
      s.(noButtonStyle := MovedStyle(s.noButtonStyle, s.noAttempts, container, rx, ry))
    else s
  }

  /** `handleNoTouch`: below the cap it relocates the button; it never
      touches anything but the position. */
  function NoTouched(s: State, container: Option<real>, rx: real, ry: real): (t: State)
    requires IsDraw(rx) && IsDraw(ry)
    ensures t == s.(noButtonStyle := t.noButtonStyle)
    ensures s.noAttempts >= MaxAttempts || container.None? ==> t == s
    ensures s.noAttempts < MaxAttempts && container.Some? ==> Placed(t.noButtonStyle, container.value)
  {
    if s.noAttempts < MaxAttempts then
      s.(noButtonStyle := MovedStyle(s.noButtonStyle, s.noAttempts, container, rx, ry))
    else s
  }

  /** `handleYesClick`'s state change: accepted, from any attempt count. */
  function YesClicked(s: State): (t: State)
    ensures t.accepted
    ensures t.(accepted := s.accepted) == s
  {
    s.(accepted := true)
  }

  /** The 500 ms timer started by the last attempt fires and hides the No
      button. */
  function HideTimerFired(s: State): (t: State)
    ensures s.hideTimerPending ==> !t.showNoButton && !t.hideTimerPending
    ensures s.hideTimerPending ==> t.(showNoButton := s.showNoButton, hideTimerPending := true) == s
    ensures !s.hideTimerPending ==> t == s
  {
    if s.hideTimerPending then s.(showNoButton := false, hideTimerPending := false) else s
  }

  // ---------------------------------------------------------------------
  // What is rendered, and which events can reach the card
  // ---------------------------------------------------------------------

  /** The rendered card: the question with its buttons, or the success view. */
  datatype Screen =
    | Question(yesScale: real, noButton: Option<(string, Style, real)>, onlyOneChoiceHint: bool)
    | Success

  function View(s: State): (v: Screen)
    ensures v.Success? <==> s.accepted
    ensures v.Question? ==> (v.noButton.Some? <==> s.showNoButton) && (v.onlyOneChoiceHint <==> !s.showNoButton)
    ensures v.Question? ==> v.yesScale == s.yesButtonSize
    ensures v.Question? && s.showNoButton ==> v.noButton == Some((s.noButtonText, s.noButtonStyle, NoScale(s.noAttempts)))
  {
    if s.accepted then Success
    else Question(s.yesButtonSize,
                  if s.showNoButton then Some((s.noButtonText, s.noButtonStyle, NoScale(s.noAttempts))) else None,
                  !s.showNoButton)
  }

  predicate YesButtonRendered(s: State) {
    View(s).Question?
  }

  predicate NoButtonRendered(s: State) {
    View(s).Question? && View(s).noButton.Some?
  }

  /** An input the card can receive, with the draws and measurements the
      handler makes. */
  datatype Event =
    | NoClick(container: Option<real>, rText: real, rx: real, ry: real)
    | NoHover(isMobile: bool, container: Option<real>, rx: real, ry: real)
    | NoTouch(container: Option<real>, rx: real, ry: real)
    | YesClick
    | HideTimer

  predicate DrawsValid(e: Event) {
    match e
    case NoClick(_, rText, rx, ry) => IsDraw(rText) && IsDraw(rx) && IsDraw(ry)
    case NoHover(_, _, rx, ry) => IsDraw(rx) && IsDraw(ry)
    case NoTouch(_, rx, ry) => IsDraw(rx) && IsDraw(ry)
    case YesClick => true
    case HideTimer => true
  }

  predicate AllDrawsValid(es: seq<Event>) {
    forall i :: 0 <= i < |es| ==> DrawsValid(es[i])
  }

  /** The handler of an event, as written. */
  function Handle(s: State, e: Event): State
    requires DrawsValid(e)
  {
    match e
    case NoClick(container, rText, rx, ry) => NoClicked(s, container, rText, rx, ry)
    case NoHover(isMobile, container, rx, ry) => NoHovered(s, isMobile, container, rx, ry)
    case NoTouch(container, rx, ry) => NoTouched(s, container, rx, ry)
    case YesClick => YesClicked(s)
    case HideTimer => HideTimerFired(s)
  }

  /** Whether the event reaches its handler: button events only reach a
      button that is rendered; the timer fires regardless. */
  predicate Delivered(s: State, e: Event) {
    match e
    case NoClick(_, _, _, _) => NoButtonRendered(s)
    case NoHover(_, _, _, _) => NoButtonRendered(s)
    case NoTouch(_, _, _) => NoButtonRendered(s)
    case YesClick => YesButtonRendered(s)
    case HideTimer => true
  }

  function Step(s: State, e: Event): State
    requires DrawsValid(e)
  {
    if Delivered(s, e) then Handle(s, e) else s
  }

  /** What each handler may change: a Yes click only accepts, hover and
      touch only move the No button, the timer only hides it, and nothing
      but a Yes click accepts. */
  lemma HandleChanges(s: State, e: Event)
    requires DrawsValid(e)
    ensures e.YesClick? ==> Handle(s, e) == s.(accepted := true)
    ensures e.NoHover? || e.NoTouch? ==> Handle(s, e) == s.(noButtonStyle := Handle(s, e).noButtonStyle)
    ensures e.HideTimer? ==> Handle(s, e) == s.(showNoButton := Handle(s, e).showNoButton,
                                                 hideTimerPending := Handle(s, e).hideTimerPending)
    ensures !e.YesClick? ==> Handle(s, e).accepted == s.accepted
  {
  }

  /** Button events reach the card only while their button is on screen: the
      Yes button until acceptance, the No button until acceptance or until it
      is hidden. The timer's callback always runs. */
  lemma DeliveredExactly(s: State, e: Event)
    ensures e.YesClick? ==> (Delivered(s, e) <==> !s.accepted)
    ensures e.NoClick? || e.NoHover? || e.NoTouch? ==> (Delivered(s, e) <==> !s.accepted && s.showNoButton)
    ensures e.HideTimer? ==> Delivered(s, e)
  {
  }

  /** A step of an accepted card changes nothing but what the timer does, a
      No event on a hidden button changes nothing, and while both buttons
      are shown every event runs its handler. */
  lemma StepIgnoresUnrendered(s: State, e: Event)
    requires DrawsValid(e)
    ensures s.accepted && !e.HideTimer? ==> Step(s, e) == s
    ensures !s.showNoButton && (e.NoClick? || e.NoHover? || e.NoTouch?) ==> Step(s, e) == s
    ensures !s.accepted && s.showNoButton ==> Step(s, e) == Handle(s, e)
  {
  }

  /** The state after a sequence of events. */
  function Run(s: State, es: seq<Event>): State
    requires AllDrawsValid(es)
    decreases |es|
  {
    if es == [] then s else Run(Step(s, es[0]), es[1..])
  }

  /** How many times `onAccept` is reached (when provided) in a run. */
  function Acceptances(s: State, es: seq<Event>): nat
    requires AllDrawsValid(es)
    decreases |es|
  {
    if es == [] then 0
    else (if es[0].YesClick? && Delivered(s, es[0]) then 1 else 0) + Acceptances(Step(s, es[0]), es[1..])
  }

  // ---------------------------------------------------------------------
  // Properties of runs
  // ---------------------------------------------------------------------

  lemma StepInv(s: State, e: Event)
    requires Inv(s) && DrawsValid(e)
    ensures Inv(Step(s, e))
  {
  }

  lemma LabelFitsStep(s: State, e: Event)
    requires Inv(s) && LabelFits(s.noAttempts, s.noButtonText) && DrawsValid(e)
    ensures LabelFits(Step(s, e).noAttempts, Step(s, e).noButtonText)
  {
  }

  /** The label is "No" until the first attempt and one of the phrases from
      then on, along any run. */
  lemma {:induction false} RunLabelFits(s: State, es: seq<Event>)
    requires Inv(s) && LabelFits(s.noAttempts, s.noButtonText) && AllDrawsValid(es)
    ensures LabelFits(Run(s, es).noAttempts, Run(s, es).noButtonText)
    decreases |es|
  {
    if es != [] {
      StepInv(s, es[0]);
      LabelFitsStep(s, es[0]);
      RunLabelFits(Step(s, es[0]), es[1..]);
    }
  }

  lemma {:induction false} RunInv(s: State, es: seq<Event>)
    requires Inv(s) && AllDrawsValid(es)
    ensures Inv(Run(s, es))
    decreases |es|
  {
    if es != [] {
      StepInv(s, es[0]);
      RunInv(Step(s, es[0]), es[1..]);
    }
  }

  /** Progress only goes one way: the count and the Yes scale never
      decrease, a hidden No button never comes back, and acceptance is never
      undone. */
  predicate Progressed(s: State, t: State) {
    && s.noAttempts <= t.noAttempts
    && s.yesButtonSize <= t.yesButtonSize
    && (!s.showNoButton ==> !t.showNoButton)
    && (s.accepted ==> t.accepted)
  }

  lemma {:induction false} RunProgresses(s: State, es: seq<Event>)
    requires Inv(s) && AllDrawsValid(es)
    ensures Progressed(s, Run(s, es))
    decreases |es|
  {
    if es != [] {
      var s' := Step(s, es[0]);
      StepInv(s, es[0]);
      assert Progressed(s, s');
      RunProgresses(s', es[1..]);
    }
  }

  predicate AllNoClicks(es: seq<Event>) {
    forall i :: 0 <= i < |es| ==> es[i].NoClick?
  }

  /** k No clicks on a card that still shows the question and its No button
      leave the count at min(count + k, 3), with the Yes scale to match. */
  lemma {:induction false} ClicksCount(s: State, es: seq<Event>)
    requires Inv(s) && AllDrawsValid(es) && AllNoClicks(es)
    requires !s.accepted && s.showNoButton
    ensures Run(s, es).noAttempts == if s.noAttempts + |es| <= MaxAttempts then s.noAttempts + |es| else MaxAttempts
    ensures Run(s, es).yesButtonSize == YesScale(Run(s, es).noAttempts)
    ensures !Run(s, es).accepted && Run(s, es).showNoButton
    decreases |es|
  {
    if es != [] {
      var s' := Step(s, es[0]);
      StepInv(s, es[0]);
      assert AllNoClicks(es[1..]) by {
        forall i | 0 <= i < |es[1..]| ensures es[1..][i].NoClick? {
          assert es[1..][i] == es[i + 1];
        }
      }
      ClicksCount(s', es[1..]);
    }
    RunInv(s, es);
  }

  /** The quantities the No handlers may change. */
  predicate SameDecline(s: State, t: State) {
    && t.noAttempts == s.noAttempts
    && t.noButtonText == s.noButtonText
    && t.noButtonStyle == s.noButtonStyle
    && t.yesButtonSize == s.yesButtonSize
  }

  /** Once accepted, nothing about the buttons changes any more (only the
      pending hide timer may still fire), and the card stays accepted. */
  lemma {:induction false} AcceptedIsTerminal(s: State, es: seq<Event>)
    requires AllDrawsValid(es)
    requires s.accepted
    ensures SameDecline(s, Run(s, es)) && Run(s, es).accepted
    decreases |es|
  {
    if es != [] {
      AcceptedIsTerminal(Step(s, es[0]), es[1..]);
    }
  }

  /** Once the No button is hidden it stays hidden, and nothing about it
      changes any more. */
  lemma {:induction false} HiddenIsTerminal(s: State, es: seq<Event>)
    requires Inv(s) && AllDrawsValid(es)
    requires !s.showNoButton
    ensures SameDecline(s, Run(s, es)) && !Run(s, es).showNoButton
    decreases |es|
  {
    if es != [] {
      StepInv(s, es[0]);
      HiddenIsTerminal(Step(s, es[0]), es[1..]);
    }
  }

  /** `onAccept` is reached exactly once in a run that accepts, at the
      moment of acceptance, and never otherwise. */
  lemma {:induction false} AcceptedOnce(s: State, es: seq<Event>)
    requires AllDrawsValid(es)
    ensures Acceptances(s, es) == if !s.accepted && Run(s, es).accepted then 1 else 0
    decreases |es|
  {
    if es != [] {
      var s' := Step(s, es[0]);
      AcceptedOnce(s', es[1..]);
      if s'.accepted {
        AcceptedIsTerminal(s', es[1..]);
      }
    }
  }

  /** One click on a fresh card (draws and width arbitrary): count 1, a new
      label, the No button still shown, Yes at 1.2. */
  lemma OneClickScenario(width: real, rText: real, rx: real, ry: real)
    requires IsDraw(rText) && IsDraw(rx) && IsDraw(ry)
    ensures var t := Step(Initial, NoClick(Some(width), rText, rx, ry));
            t.noAttempts == 1 && t.noButtonText != InitialText && t.showNoButton && t.yesButtonSize == 1.2
  {
  }

  /** The third click (on a card with two attempts that still shows its No
      button): count 3, Yes at 1.6, the No button still shown with its hide
      timer pending, and hidden once the timer fires. With `ClicksCount`
      this is the three-clicks scenario of a fresh card. */
  lemma ThirdClickScenario(s: State, e: Event)
    requires Inv(s) && s.noAttempts == 2 && s.showNoButton && !s.accepted
    requires e.NoClick? && DrawsValid(e)
    ensures var t := Step(s, e);
            && t.noAttempts == 3 && t.yesButtonSize == 1.6 && !t.accepted
            && t.showNoButton && t.hideTimerPending
            && !Step(t, HideTimer).showNoButton
  {
  }

  // ---------------------------------------------------------------------
  // The component, step by step
  // ---------------------------------------------------------------------

  /** A mounted `ProposalCard`: its React state and whether an `onAccept`
      callback was passed. */
  class ProposalCard {
    var noAttempts: nat
    var noButtonText: string
    var noButtonStyle: Style
    var yesButtonSize: real
    var showNoButton: bool
    var accepted: bool
    var hideTimerPending: bool
    const hasOnAccept: bool

    function Model(): State
      reads this
    {
      State(noAttempts, noButtonText, noButtonStyle, yesButtonSize, showNoButton, accepted, hideTimerPending)
    }

    predicate Valid()
      reads this
    {
      Inv(Model())
    }

    constructor (hasOnAccept: bool)
      ensures Model() == Initial && Valid()
      ensures this.hasOnAccept == hasOnAccept
    {
      noAttempts := 0;
      noButtonText := InitialText;
      noButtonStyle := InitialStyle;
      yesButtonSize := 1.0;
      showNoButton := true;
      accepted := false;
      hideTimerPending := false;
      this.hasOnAccept := hasOnAccept;
    }

    /** `moveNoButton` with the count its closure captured. */
    method MoveNoButton(closureAttempts: nat, container: Option<real>, rx: real, ry: real)
      requires IsDraw(rx) && IsDraw(ry)
      modifies this`noButtonStyle
      ensures noButtonStyle == MovedStyle(old(noButtonStyle), closureAttempts, container, rx, ry)
    {
      if container.None? || closureAttempts >= MaxAttempts {
        return;
      }
      var maxX := container.value - NoButtonWidth;
      var randomX := Scaled(rx, maxX);
      var randomY := Scaled(ry, MaxY) + MinTop;
      noButtonStyle := Style(Px(randomX), Px(randomY));
    }

    method HandleNoClick(container: Option<real>, rText: real, rx: real, ry: real)
      requires Valid() && IsDraw(rText) && IsDraw(rx) && IsDraw(ry)
      modifies this
      ensures Model() == NoClicked(old(Model()), container, rText, rx, ry)
      ensures Valid()
    {
      ghost var before := Model();
      NoClickedInv(before, container, rText, rx, ry);
      if noAttempts < MaxAttempts {
        var closureAttempts := noAttempts;
        var newAttempts := noAttempts + 1;
        noAttempts := newAttempts;
        noButtonText := RandomText(noButtonText, rText);
        yesButtonSize := YesScale(newAttempts);
        MoveNoButton(closureAttempts, container, rx, ry);
        if newAttempts >= MaxAttempts {
          hideTimerPending := true;
        }
      }
    }

    method HandleNoHover(isMobile: bool, container: Option<real>, rx: real, ry: real)
      requires Valid() && IsDraw(rx) && IsDraw(ry)
      modifies this
      ensures Model() == NoHovered(old(Model()), isMobile, container, rx, ry)
      ensures Valid()
    {
      if !isMobile && noAttempts < MaxAttempts {
        MoveNoButton(noAttempts, container, rx, ry);
      }
    }

    method HandleNoTouch(container: Option<real>, rx: real, ry: real)
      requires Valid() && IsDraw(rx) && IsDraw(ry)
      modifies this
      ensures Model() == NoTouched(old(Model()), container, rx, ry)
      ensures Valid()
    {
      if noAttempts < MaxAttempts {
        MoveNoButton(noAttempts, container, rx, ry);
      }
    }

    /** `handleYesClick`: accepts, runs the celebration that starts at
      `acceptedAt` against the frame clock, and calls `onAccept` if one was
      passed. */
    method HandleYesClick(acceptedAt: int, clock: seq<int>) returns (bursts: seq<Celebration.Burst>, onAcceptCalled: bool)
      requires Valid()
      requires Celebration.Reaches(clock, acceptedAt + Celebration.DurationMs)
      modifies this
      ensures Model() == YesClicked(old(Model()))
      ensures Valid()
      ensures onAcceptCalled == hasOnAccept
      ensures bursts == [Celebration.OpeningBurst] +
                Celebration.FramesEmission(Celebration.FirstReaching(clock, acceptedAt + Celebration.DurationMs) + 1)
    {
      accepted := true;
      var frames;
      bursts, frames := Celebration.Celebrate(acceptedAt, clock);
      onAcceptCalled := hasOnAccept;
    }

    /** The hide timer's callback, `setShowNoButton(false)`. */
    method FireHideTimer()
      requires Valid()
      modifies this
      ensures Model() == HideTimerFired(old(Model()))
      ensures Valid()
    {
      if hideTimerPending {
        showNoButton := false;
        hideTimerPending := false;
      }
    }
  }
}
