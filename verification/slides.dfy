/** Slide navigation: the `currentSlide` counter that the "next" and
    "previous" buttons move, the slide last drawn on screen, and the buttons
    each slide shows. */
module Slides {

  const FirstSlide := 1
  const LastSlide := 4

  predicate InRange(n: int) {
    FirstSlide <= n <= LastSlide
  }

  /** `nextSlide`: advance unless already on the last slide. */
  function NextSlide(current: int): (r: int)
    ensures InRange(current) ==> InRange(r)
    ensures r != current <==> current < LastSlide
    ensures r == current || r == current + 1
  {
    if current < LastSlide then current + 1 else current
  }

  /** `prevSlide`: go back unless already on the first slide. */
  function PrevSlide(current: int): (r: int)
    ensures InRange(current) ==> InRange(r)
    ensures r != current <==> current > FirstSlide
    ensures r == current || r == current - 1
  {
    if current > FirstSlide then current - 1 else current
  }

  /** Going forward and back again, or back and forward again, returns to the
      slide one started from whenever the first move was possible. */
  lemma NextPrevInverse(current: int)
    ensures FirstSlide <= current < LastSlide ==> PrevSlide(NextSlide(current)) == current
    ensures FirstSlide < current <= LastSlide ==> NextSlide(PrevSlide(current)) == current
  {
  }

  /** Whether the "previous" and "next" buttons are displayed. */
  datatype Buttons = Buttons(prevShown: bool, nextShown: bool)

  /** The buttons `updateSlide` displays for each slide: no "previous" on the
      first slide, no "next" on the last. */
  function ButtonsOf(slide: int): (r: Buttons)
    requires InRange(slide)
  {
    Buttons(slide != FirstSlide, slide != LastSlide)
  }

  /** The page: the counter, the slide drawn last, and the buttons displayed. */
  datatype Screen = Screen(current: int, shown: int, buttons: Buttons)

  /** `updateSlide(slide)`: draws `slide` and sets the buttons; a number
      outside 1..4 only clears the container and leaves the buttons. */
  function Render(s: Screen, slide: int): (r: Screen)
    ensures r.current == s.current && r.shown == slide
    ensures InRange(slide) ==> r.buttons.prevShown == (slide > FirstSlide)
                               && r.buttons.nextShown == (slide < LastSlide)
  {
    s.(shown := slide, buttons := if InRange(slide) then ButtonsOf(slide) else s.buttons)
  }

  /** What happens to the page: a click on one of the buttons, or the CSV
      data arriving. */
  datatype Event = NextClick | PrevClick | DataLoaded

  /** The page after `initSlides` has drawn slide 1; before that the
      buttons' display is whatever the page markup says. */
  function Start(markup: Buttons): (r: Screen)
    ensures r.current == FirstSlide && r.shown == FirstSlide
    ensures !r.buttons.prevShown && r.buttons.nextShown
  {
    Render(Screen(FirstSlide, FirstSlide, markup), FirstSlide)
  }

  /** The handlers as written: once the data is loaded, slide 2 is drawn but
      the counter is left where it was. */
  function Step(s: Screen, e: Event): (r: Screen) {
    match e
    case NextClick =>
      if s.current < LastSlide then Render(s.(current := NextSlide(s.current)), NextSlide(s.current)) else s
    case PrevClick =>
      if s.current > FirstSlide then Render(s.(current := PrevSlide(s.current)), PrevSlide(s.current)) else s
    case DataLoaded => Render(s, 2)
  }

  /** The handlers with the counter moved to slide 2 when the data-load
      callback draws slide 2. */
  function StepFixed(s: Screen, e: Event): (r: Screen) {
    match e
    case DataLoaded => Render(s.(current := 2), 2)
    case _ => Step(s, e)
  }

  function Run(s: Screen, events: seq<Event>): (r: Screen)
    decreases |events|
  {
    if |events| == 0 then s else Run(Step(s, events[0]), events[1..])
  }

  function RunFixed(s: Screen, events: seq<Event>): (r: Screen)
    decreases |events|
  {
    if |events| == 0 then s else RunFixed(StepFixed(s, events[0]), events[1..])
  }

  /** The counter and the slide on screen never leave 1..4, whatever the
      sequence of clicks and whenever the data arrives. */
  lemma {:induction false} RunStaysInRange(s: Screen, events: seq<Event>)
    requires InRange(s.current) && InRange(s.shown)
    ensures InRange(Run(s, events).current) && InRange(Run(s, events).shown)
    decreases |events|
  {
    if |events| > 0 {
      RunStaysInRange(Step(s, events[0]), events[1..]);
    }
  }

  /** As written, after the data arrives slide 2 is on screen with its
      "previous" button displayed while the counter still says slide 1: the
      "previous" click then does nothing, and the first "next" click draws
      slide 2 again. */
  lemma StaleCounterAfterLoad(markup: Buttons)
    ensures var loaded := Step(Start(markup), DataLoaded);
            && loaded.shown == 2 && loaded.current == 1
            && loaded.buttons.prevShown
            && Step(loaded, PrevClick) == loaded
            && Step(loaded, NextClick).shown == loaded.shown
  {
  }

  /** The counter names the slide on screen and the buttons are that slide's. */
  predicate Synced(s: Screen) {
    InRange(s.current) && s.shown == s.current && s.buttons == ButtonsOf(s.current)
  }

  /** With the fix, every event keeps the counter and the screen in step. */
  lemma {:induction false} FixedStaysSynced(s: Screen, events: seq<Event>)
    requires Synced(s)
    ensures Synced(RunFixed(s, events))
    decreases |events|
  {
    if |events| > 0 {
      var e := events[0];
      assert Synced(StepFixed(s, e));
      FixedStaysSynced(StepFixed(s, e), events[1..]);
    }
  }

  /** With the fix, a displayed button always changes the slide and a hidden
      one never would. */
  lemma FixedButtonsMatchGuards(s: Screen)
    requires Synced(s)
    ensures s.buttons.prevShown <==> StepFixed(s, PrevClick).shown == s.shown - 1
    ensures !s.buttons.prevShown <==> StepFixed(s, PrevClick) == s
    ensures s.buttons.nextShown <==> StepFixed(s, NextClick).shown == s.shown + 1
    ensures !s.buttons.nextShown <==> StepFixed(s, NextClick) == s
  {
  }
}
