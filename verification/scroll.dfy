/**
 The page's scroll reactions (main.js, sections 1 and 2): a throttle that
 lets a scroll event through only when enough time has passed since the
 last one it let through, two visibility thresholds on the vertical scroll
 offset, and the rule that marks the navigation link of the section being
 read. Clock readings and offsets are whole numbers passed in.
 */
module Scroll {
  import opened Js

  /* ---------------------------------------------------------------- */
  /* Throttle                                                         */
  /* ---------------------------------------------------------------- */

  /** The scroll handler is throttled to one call per 100 ms. */
  const ScrollThrottleMs: int := 100

  /** The throttle's answer to one call: whether the call reaches the
      wrapped function, and the new value of its `last` variable. */
  datatype ThrottleStep = ThrottleStep(forward: bool, last: int)

  /** One call of the throttled function at clock value `now`, with `last`
      the clock value of the last call let through (0 before any). */
  function Gate(last: int, ms: int, now: int): (r: ThrottleStep)
    ensures r.forward <==> now - last >= ms
    ensures r.forward ==> r.last == now
    ensures !r.forward ==> r.last == last
  {
    if now - last >= ms then ThrottleStep(true, now) else ThrottleStep(false, last)
  }

  /** The throttle's `last` after a series of calls at clock values
      `times`. */
  function LastAfter(last: int, ms: int, times: seq<int>): int
    decreases |times|
  {
    if times == [] then last
    else LastAfter(Gate(last, ms, times[0]).last, ms, times[1..])
  }

  /** The clock values of the calls that get through, in order: the first
      is at least `ms` after the initial `last`, and each is at least `ms`
      after the one before it. */
  function Forwarded(last: int, ms: int, times: seq<int>): (r: seq<int>)
    ensures |r| <= |times|
    ensures forall k :: 0 <= k < |r| ==> r[k] in times
    ensures r != [] ==> r[0] - last >= ms
    ensures forall k :: 0 <= k < |r| - 1 ==> r[k + 1] - r[k] >= ms
    decreases |times|
  {
    if times == [] then []
    else
      var s := Gate(last, ms, times[0]);
      (if s.forward then [times[0]] else []) + Forwarded(s.last, ms, times[1..])
  }

  /** The throttle remembers the last call it let through, or keeps its
      initial value when none got through. */
  lemma {:induction false} LastAfterIsLastForwarded(last: int, ms: int, times: seq<int>)
    ensures var r := Forwarded(last, ms, times);
            LastAfter(last, ms, times) == if r == [] then last else r[|r| - 1]
    decreases |times|
  {
    if times != [] {
      var s := Gate(last, ms, times[0]);
      LastAfterIsLastForwarded(s.last, ms, times[1..]);
    }
  }

  /** Adding one call at the end: it gets through exactly when it comes at
      least `ms` after the last call that got through before it. */
  lemma {:induction false} ForwardedSnoc(last: int, ms: int, times: seq<int>, t: int)
    ensures Forwarded(last, ms, times + [t])
         == Forwarded(last, ms, times) + (if t - LastAfter(last, ms, times) >= ms then [t] else [])
    decreases |times|
  {
    if times == [] {
      assert times + [t] == [t];
    } else {
      var s := Gate(last, ms, times[0]);
      assert (times + [t])[0] == times[0];
      assert (times + [t])[1..] == times[1..] + [t];
      ForwardedSnoc(s.last, ms, times[1..], t);
    }
  }

  /** With a non-negative interval, any two calls that get through, not
      only neighbours, are at least `ms` apart. */
  lemma {:induction false} ForwardedFarApart(last: int, ms: int, times: seq<int>, i: nat, j: nat)
    requires ms >= 0
    requires i < j < |Forwarded(last, ms, times)|
    ensures Forwarded(last, ms, times)[j] - Forwarded(last, ms, times)[i] >= ms
    decreases j
  {
    var r := Forwarded(last, ms, times);
    if i < j - 1 {
      ForwardedFarApart(last, ms, times, i, j - 1);
      assert r[j] - r[j - 1] >= ms;
    }
  }

  /** The page throttles `onScroll` to 100 ms with `last` starting at 0,
      so any two scroll events that reach it are at least 100 ms apart. */
  lemma ScrollHandlerSpacing(times: seq<int>, i: nat, j: nat)
    requires i < j < |Forwarded(0, ScrollThrottleMs, times)|
    ensures Forwarded(0, ScrollThrottleMs, times)[j] - Forwarded(0, ScrollThrottleMs, times)[i] >= 100
  {
    ForwardedFarApart(0, ScrollThrottleMs, times, i, j);
  }

  /* ---------------------------------------------------------------- */
  /* Thresholds                                                       */
  /* ---------------------------------------------------------------- */

  const CompactAfter: int := 50
  const BackToTopAfter: int := 600

  /** A section as the tracker sees it: its `id` and its distance from the
      top of the document. */
  datatype Section = Section(id: string, offsetTop: int)

  /** The tracker counts a section as reached 120 pixels before its top
      edge scrolls to the top of the window. */
  const ReachMargin: int := 120

  predicate Reached(s: Section, y: int) {
    y >= s.offsetTop - ReachMargin
  }

  /* ---------------------------------------------------------------- */
  /* Active link                                                      */
  /* ---------------------------------------------------------------- */

  /** The index of the last section, in document order, that has been
      reached, if any. */
  function LastReached(sections: seq<Section>, y: int): (r: Option<nat>)
    ensures r.Some? ==> && r.value < |sections| && Reached(sections[r.value], y)
                        && forall k :: r.value < k < |sections| ==> !Reached(sections[k], y)
    ensures r.None? <==> forall k :: 0 <= k < |sections| ==> !Reached(sections[k], y)
  {
    if sections == [] then None
    else if Reached(sections[|sections| - 1], y) then Some(|sections| - 1)
    else LastReached(sections[..|sections| - 1], y)
  }

  /** The id the tracker settles on: that of the last section reached, or
      the empty string when none is. */
  function CurrentId(sections: seq<Section>, y: int): string {
    match LastReached(sections, y)
    case Some(k) => sections[k].id
    case None => ""
  }

  /** A link is marked active when its `href` is `#` followed by the
      current id; a link without `href` never is. */
  predicate LinkActive(href: Option<string>, currentId: string) {
    href.Some? && href.value == "#" + currentId
  }

  /** The handler's state after a scroll to offset `y`. */
  datatype View = View(compact: bool, backToTopShown: bool, currentId: string, active: seq<bool>)

  /** `updateActiveNav` as written: one pass over the sections in document
      order, each reached section overwriting the id found so far, then one
      pass over the links. */
  method UpdateActiveNav(sections: seq<Section>, links: seq<Option<string>>, y: int)
    returns (currentId: string, active: seq<bool>)
    ensures currentId == CurrentId(sections, y)
    ensures |active| == |links|
    ensures forall i :: 0 <= i < |links| ==> (active[i] <==> LinkActive(links[i], currentId))
  {
    currentId := "";
    var i := 0;
    while i < |sections|
      invariant 0 <= i <= |sections|
      invariant currentId == CurrentId(sections[..i], y)
    {
      assert sections[..i + 1][..i] == sections[..i];
      if y >= sections[i].offsetTop - ReachMargin {
        currentId := sections[i].id;
      }
      i := i + 1;
    }
    assert sections[..i] == sections;
    active := [];
    var j := 0;
    while j < |links|
      invariant 0 <= j <= |links|
      invariant |active| == j
      invariant forall k :: 0 <= k < j ==> (active[k] <==> LinkActive(links[k], currentId))
    {
      active := active + [links[j].Some? && links[j].value == "#" + currentId];
      j := j + 1;
    }
  }

  /** The scroll handler (main.js:30-51): the header turns compact past 50
      pixels, the back-to-top button shows past 600, and the links are
      marked for the current section. */
  method OnScroll(y: int, sections: seq<Section>, links: seq<Option<string>>) returns (v: View)
    ensures v.compact <==> y > CompactAfter
    ensures v.backToTopShown <==> y > BackToTopAfter
    ensures v.currentId == CurrentId(sections, y)
    ensures |v.active| == |links|
    ensures forall i :: 0 <= i < |links| ==> (v.active[i] <==> LinkActive(links[i], v.currentId))
  {
    var currentId, active := UpdateActiveNav(sections, links, y);
    v := View(y > CompactAfter, y > BackToTopAfter, currentId, active);
  }

  /** When the sections are laid out top to bottom, the reached ones form a
      prefix, so the current section is the one that has been reached while
      the next one has not. */
  lemma ReachedIsPrefix(sections: seq<Section>, y: int, k: nat)
    requires forall i, j :: 0 <= i < j < |sections| ==> sections[i].offsetTop < sections[j].offsetTop
    requires LastReached(sections, y) == Some(k)
    ensures forall i :: 0 <= i <= k ==> Reached(sections[i], y)
    ensures forall i :: k < i < |sections| ==> !Reached(sections[i], y)
  {
  }

  /** Before the first section is reached no id is current, and a link
      whose `href` is a bare `#` is then marked active. */
  lemma BareHashActiveAtTop(sections: seq<Section>, y: int)
    requires forall k :: 0 <= k < |sections| ==> !Reached(sections[k], y)
    ensures CurrentId(sections, y) == ""
    ensures LinkActive(Some("#"), CurrentId(sections, y))
  {
  }

  /** Otherwise at most the links naming the current id are marked, and a
      bare `#` never is. */
  lemma BareHashInactiveOnceReached(sections: seq<Section>, y: int, k: nat)
    requires k < |sections| && Reached(sections[k], y)
    requires forall i :: 0 <= i < |sections| ==> sections[i].id != ""
    ensures !LinkActive(Some("#"), CurrentId(sections, y))
  {
  }
}
