/**
 The hero carousel (main.js, section 7). With two or more slides it shows
 one at a time, moves on by itself every five seconds, and lets the user go
 back, forward or straight to a slide with buttons, dots and the arrow
 keys; every manual move restarts the five-second wait. Timers are
 handles: `setInterval` hands out a fresh one, `clearInterval` retires it,
 and a tick arrives only from a handle still running.
 */
module Carousel {
  import opened Js

  /** Lemma: two multiples of `n` add up to a multiple of `n`. */
  lemma MultiplesAdd(x: int, y: int, n: int)
    requires n > 0 && x % n == 0 && y % n == 0
    ensures (x + y) % n == 0
  {
    ModOfDecomposition(x + y, n, x / n + y / n, 0);
  }

  /** `((index % n) + n) % n` with JavaScript's `%`: the slide an index
      lands on, which is the index's Euclidean remainder by `n`. */
  function SlideIndex(index: int, n: int): (r: int)
    requires n > 0
    ensures 0 <= r < n
    ensures r == index % n
  {
    var a := Rem(index, n);
    var r := Rem(a + n, n);
    MultiplesAdd(index - a, a + n - r, n);
    assert (index - r) + n == (index - a) + (a + n - r);
    ModOfDecomposition(index, n, (index + n - r) / n - 1, r);
    r
  }

  /** One remainder alone would not do: in JavaScript `-1 % 3` is `-1`,
      and the added `n` and second remainder bring it to slide 2; from
      index 3 the carousel wraps to slide 0. */
  lemma SlideIndexExamples()
    ensures Rem(-1, 3) == -1
    ensures SlideIndex(-1, 3) == 2
    ensures SlideIndex(3, 3) == 0
  {
  }

  /** The carousel's variables: the number of slides, the current slide,
      the handle in `autoplayTimer` (if any), the handles of the intervals
      still running, and the handle `setInterval` gives out next. */
  datatype Carousel = Carousel(
    count: nat,
    current: nat,
    timer: Option<nat>,
    running: set<nat>,
    nextHandle: nat)

  /** Between events: at least two slides, a current one among them, and
      exactly one interval running, the one the carousel holds. Interval
      handles are positive and all handed out before `nextHandle`. */
  predicate Valid(c: Carousel) {
    && c.count >= 2
    && c.current < c.count
    && c.timer.Some?
    && c.running == {c.timer.value}
    && 1 <= c.timer.value < c.nextHandle
  }

  /** `goToSlide(index)`. */
  function GoToSlide(c: Carousel, index: int): (r: Carousel)
    requires c.count > 0
    ensures r.current == index % c.count
    ensures r == c.(current := r.current)
  {
    c.(current := SlideIndex(index, c.count))
  }

  function NextSlide(c: Carousel): (r: Carousel)
    requires c.count > 0
    ensures r.current == (c.current + 1) % c.count
    ensures r == c.(current := r.current)
  {
    GoToSlide(c, c.current + 1)
  }

  function PrevSlide(c: Carousel): (r: Carousel)
    requires c.count > 0
    ensures r.current == (c.current - 1 + c.count) % c.count
    ensures r == c.(current := r.current)
  {
    ModOfDecomposition(c.current - 1 + c.count, c.count,
      (c.current - 1) / c.count + 1, (c.current - 1) % c.count);
    GoToSlide(c, c.current - 1)
  }

  /** Going forward then back, or back then forward, returns to the same
      slide. */
  lemma {:induction false} NextPrevInverse(c: Carousel)
    requires Valid(c)
    ensures PrevSlide(NextSlide(c)) == c
    ensures NextSlide(PrevSlide(c)) == c
  {
    var n := c.count;
    var f := NextSlide(c);
    if c.current + 1 < n {
      ModOfDecomposition(c.current + 1, n, 0, c.current + 1);
      ModOfDecomposition(c.current + n, n, 1, c.current);
    } else {
      ModOfDecomposition(c.current + 1, n, 1, 0);
      ModOfDecomposition(n - 1, n, 0, n - 1);
    }
    assert PrevSlide(f).current == c.current;
    var b := PrevSlide(c);
    if c.current == 0 {
      ModOfDecomposition(n - 1, n, 0, n - 1);
      ModOfDecomposition(n, n, 1, 0);
    } else {
      ModOfDecomposition(c.current - 1 + n, n, 1, c.current - 1);
      ModOfDecomposition(c.current, n, 0, c.current);
    }
    assert NextSlide(b).current == c.current;
  }

  /** `stopAutoplay`: a held, truthy handle is cleared and forgotten. */
  function StopAutoplay(c: Carousel): (r: Carousel)
    ensures r.timer.None? || r.timer == Some(0)
    ensures c.timer.Some? && c.timer.value != 0 ==> r.running == c.running - {c.timer.value}
    ensures c.timer.None? || c.timer == Some(0) ==> r == c
    ensures r.current == c.current && r.count == c.count && r.nextHandle == c.nextHandle
  {
    if c.timer.Some? && c.timer.value != 0
    then c.(timer := None, running := c.running - {c.timer.value})
    else c
  }

  /** `startAutoplay`: stop first, then hold a fresh interval. */
  function StartAutoplay(c: Carousel): (r: Carousel)
    ensures r.timer == Some(c.nextHandle)
    ensures r.running == StopAutoplay(c).running + {c.nextHandle}
    ensures r.nextHandle == c.nextHandle + 1
    ensures r.current == c.current && r.count == c.count
  {
    var s := StopAutoplay(c);
    s.(timer := Some(s.nextHandle), running := s.running + {s.nextHandle}, nextHandle := s.nextHandle + 1)
  }

  /** Because it stops before it starts, restarting a carousel whose only
      running interval is its own leaves exactly one interval running, a
      new one. */
  lemma StartAutoplayKeepsOneTimer(c: Carousel)
    requires c.running <= (if c.timer.Some? then {c.timer.value} else {})
    requires c.timer != Some(0)
    requires c.timer.Some? ==> c.timer.value < c.nextHandle
    ensures StartAutoplay(c).running == {c.nextHandle}
    ensures c.timer.Some? ==> c.timer.value !in StartAutoplay(c).running
  {
  }

  /** `initCarousel`: nothing happens with fewer than two slides;
      otherwise the current slide is 0 and autoplay starts with the first
      interval handle. */
  function Init(n: nat): (r: Option<Carousel>)
    ensures r.Some? <==> n >= 2
    ensures r.Some? ==> Valid(r.value) && r.value.count == n && r.value.current == 0
  {
    if n <= 1 then None
    else Some(StartAutoplay(Carousel(n, 0, None, {}, 1)))
  }

  datatype Event =
    | PrevButton
    | NextButton
    | DotClick(index: nat)
    | KeyDown(key: string)
    | Tick(handle: nat)

  /** The handlers (main.js:234-268): buttons, dots and the arrow keys move
      and restart autoplay; other keys do nothing; a tick from a running
      interval moves forward without restarting. */
  function Step(c: Carousel, e: Event): (r: Carousel)
    requires c.count > 0
    ensures r.count == c.count
    ensures Manual(e) ==> r.timer == Some(c.nextHandle) && r.nextHandle == c.nextHandle + 1
    ensures !Manual(e) ==> r == c.(current := r.current)
    ensures !Manual(e) && !(e.Tick? && e.handle in c.running) ==> r == c
  {
    match e
    case PrevButton => StartAutoplay(PrevSlide(c))
    case NextButton => StartAutoplay(NextSlide(c))
    case DotClick(k) => StartAutoplay(GoToSlide(c, k))
    case KeyDown(key) =>
      if key == "ArrowLeft" then StartAutoplay(PrevSlide(c))
      else if key == "ArrowRight" then StartAutoplay(NextSlide(c))
      else c
    case Tick(h) => if h in c.running then NextSlide(c) else c
  }

  /** Whether an event moves the carousel by hand (and so restarts its
      timer). */
  predicate Manual(e: Event) {
    || e.PrevButton? || e.NextButton? || e.DotClick?
    || (e.KeyDown? && (e.key == "ArrowLeft" || e.key == "ArrowRight"))
  }

  /** Every event keeps exactly one interval running; a manual move
      replaces it with a fresh one; anything else keeps it. */
  lemma StepKeepsOneTimer(c: Carousel, e: Event)
    requires Valid(c)
    ensures Valid(Step(c, e))
    ensures Manual(e) ==> && Step(c, e).timer == Some(c.nextHandle)
                          && Step(c, e).running == {c.nextHandle}
    ensures !Manual(e) ==> Step(c, e).timer == c.timer
  {
  }

  /** Where each event leaves the current slide. */
  lemma StepMovesSlide(c: Carousel, e: Event)
    requires Valid(c)
    ensures e.DotClick? ==> Step(c, e).current == e.index % c.count
    ensures e.NextButton? || (e.KeyDown? && e.key == "ArrowRight") || (e.Tick? && e.handle in c.running)
            ==> Step(c, e).current == (c.current + 1) % c.count
    ensures e.PrevButton? || (e.KeyDown? && e.key == "ArrowLeft")
            ==> Step(c, e).current == (c.current - 1 + c.count) % c.count
    ensures (e.Tick? && e.handle !in c.running) || (e.KeyDown? && e.key != "ArrowLeft" && e.key != "ArrowRight")
            ==> Step(c, e) == c
  {
  }

  /** A run of events. */
  function Run(c: Carousel, es: seq<Event>): Carousel
    requires c.count > 0
    decreases |es|
  {
    if es == [] then c else Run(Step(c, es[0]), es[1..])
  }

  /** From `initCarousel` on, whatever happens, exactly one interval is
      running and the current slide is a real one. */
  lemma {:induction false} RunKeepsOneTimer(c: Carousel, es: seq<Event>)
    requires Valid(c)
    ensures Valid(Run(c, es))
    ensures |Run(c, es).running| == 1
    decreases |es|
  {
    if es != [] {
      StepKeepsOneTimer(c, es[0]);
      RunKeepsOneTimer(Step(c, es[0]), es[1..]);
    }
  }
}
