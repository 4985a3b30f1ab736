/** The home-page slider of `src/components/home/HeroSlider.tsx`: the slide
    index moved by the arrows, the keyboard, the dots and a timer, and the pause
    flag. The timer is an explicit `Tick` event; the slide list is any non-empty
    list of `n` slides. */
module HeroSlider {

  /** JavaScript's `a % b` for a positive divisor: the sign follows `a`. */
  function JsRem(a: int, b: int): (r: int)
    requires b > 0
    ensures a >= 0 ==> r == a % b
    ensures -b < r < b
  {
    if a >= 0 then a % b else -((-a) % b)
  }

  /** `goNext`: `(prev + 1) % images.length`. */
  function GoNext(n: nat, index: int): (r: int)
    requires n >= 1 && 0 <= index < n
    ensures 0 <= r < n
    ensures r == if index == n - 1 then 0 else index + 1
  {
    JsRem(index + 1, n)
  }

  /** `goPrev`: `(prev - 1 + images.length) % images.length`. */
  function GoPrev(n: nat, index: int): (r: int)
    requires n >= 1 && 0 <= index < n
    ensures 0 <= r < n
    ensures r == if index == 0 then n - 1 else index - 1
  {
    JsRem(index - 1 + n, n)
  }

  /** `goPrev` undoes `goNext` and `goNext` undoes `goPrev`. */
  lemma NextPrevInverse(n: nat, index: int)
    requires n >= 1 && 0 <= index < n
    ensures GoPrev(n, GoNext(n, index)) == index
    ensures GoNext(n, GoPrev(n, index)) == index
  {
  }

  /** `k` presses of next. */
  function NextTimes(n: nat, index: int, k: nat): (r: int)
    requires n >= 1 && 0 <= index < n
    ensures 0 <= r < n
    decreases k
  {
    if k == 0 then index else NextTimes(n, GoNext(n, index), k - 1)
  }

  /** `k` presses of next, for fewer than two full turns, land `k` slides
      further on, wrapping around once past the last slide. */
  lemma {:induction false} NextTimesAdvances(n: nat, index: int, k: nat)
    requires n >= 1 && 0 <= index < n && index + k < 2 * n
    ensures NextTimes(n, index, k) == if index + k < n then index + k else index + k - n
    decreases k
  {
    if k > 0 {
      NextTimesAdvances(n, GoNext(n, index), k - 1);
    }
  }

  /** `n` presses of next come back to the same slide. */
  lemma FullTurn(n: nat, index: int)
    requires n >= 1 && 0 <= index < n
    ensures NextTimes(n, index, n) == index
  {
    NextTimesAdvances(n, index, n);
  }

  /** The component's state. */
  datatype Slider = Slider(index: int, isPaused: bool, isHovering: bool)

  /** The index names a slide. */
  predicate Valid(n: nat, s: Slider) {
    0 <= s.index < n
  }

  /** The mounted component: first slide, playing, not hovered. */
  const Start := Slider(0, false, false)

  /** What happens to the slider. */
  datatype Event =
    | Tick                    // the auto-advance interval fires
    | KeyDown(key: string)    // a key pressed while the slider has focus
    | MouseEnter
    | MouseLeave
    | PrevClick
    | NextClick
    | PauseClick
    | DotClick(i: nat)

  /** `pausedRef.current`: paused by the button or by the mouse hovering. */
  predicate Held(s: Slider) {
    s.isPaused || s.isHovering
  }

  /** The interval callback: with at most one slide no interval exists; while
      held nothing moves; else the index advances by one, wrapping. */
  function OnTick(n: nat, s: Slider): (r: Slider)
    requires n >= 1 && Valid(n, s)
    ensures r.isPaused == s.isPaused && r.isHovering == s.isHovering
    ensures (n <= 1 || Held(s)) ==> r == s
    ensures n > 1 && !Held(s) ==> r.index == (s.index + 1) % n
  {
    if n <= 1 || Held(s) then s else s.(index := GoNext(n, s.index))
  }

  /** The key handler: ignored with at most one slide; the arrows move; the
      space bar flips the pause flag; any other key does nothing. */
  function OnKey(n: nat, s: Slider, key: string): (r: Slider)
    requires n >= 1 && Valid(n, s)
    ensures n <= 1 ==> r == s
    ensures n > 1 && key == " " ==> r == s.(isPaused := !s.isPaused)
    ensures n > 1 && key == "ArrowLeft" ==> r == s.(index := GoPrev(n, s.index))
    ensures n > 1 && key == "ArrowRight" ==> r == s.(index := GoNext(n, s.index))
    ensures key !in {" ", "ArrowLeft", "ArrowRight"} ==> r == s
  {
    if n <= 1 then s
    else if key == "ArrowLeft" then s.(index := GoPrev(n, s.index))
    else if key == "ArrowRight" then s.(index := GoNext(n, s.index))
    else if key == " " then s.(isPaused := !s.isPaused)
    else s
  }

  /** One event. The arrow, pause and dot buttons are rendered only when there
      is more than one slide, and there is one dot per slide. */
  function Step(n: nat, s: Slider, e: Event): (r: Slider)
    requires n >= 1 && Valid(n, s)
    ensures Valid(n, r)
    ensures e.DotClick? && n > 1 && e.i < n ==> r == s.(index := e.i)
    ensures e.PauseClick? && n > 1 ==> r == s.(isPaused := !s.isPaused)
    ensures e.MouseEnter? ==> r == s.(isHovering := true)
    ensures e.MouseLeave? ==> r == s.(isHovering := false)
  {
    match e
    case Tick => OnTick(n, s)
    case KeyDown(key) => OnKey(n, s, key)
    case MouseEnter => s.(isHovering := true)
    case MouseLeave => s.(isHovering := false)
    case PrevClick => if n > 1 then s.(index := GoPrev(n, s.index)) else s
    case NextClick => if n > 1 then s.(index := GoNext(n, s.index)) else s
    case PauseClick => if n > 1 then s.(isPaused := !s.isPaused) else s
    case DotClick(i) => if n > 1 && i < n then s.(index := i) else s
  }

  /** The state after a run of events from `s`. */
  function Run(n: nat, s: Slider, events: seq<Event>): (r: Slider)
    requires n >= 1 && Valid(n, s)
    ensures Valid(n, r)
    decreases |events|
  {
    if events == [] then s else Run(n, Step(n, s, events[0]), events[1..])
  }

  /** `{index + 1}/{images.length}`: the counter shows a number from 1 to `n`. */
  function Counter(n: nat, s: Slider): (shown: int)
    requires Valid(n, s)
    ensures 1 <= shown <= n
  {
    s.index + 1
  }

  /** With a single slide no event moves the index. */
  lemma {:induction false} SingleSlideStays(s: Slider, events: seq<Event>)
    requires Valid(1, s)
    ensures Run(1, s, events).index == s.index
    decreases |events|
  {
    if events != [] {
      SingleSlideStays(Step(1, s, events[0]), events[1..]);
    }
  }

  /** Pressing space twice restores the pause flag. */
  lemma SpaceTwice(n: nat, s: Slider)
    requires n >= 1 && Valid(n, s)
    ensures OnKey(n, OnKey(n, s, " "), " ") == s
  {
  }
}
