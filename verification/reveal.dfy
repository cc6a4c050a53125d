/**
 Scroll reveal (main.js, section 6). Every element marked for reveal is
 watched by an intersection observer; the first time the observer reports
 it intersecting the viewport it gets the `revealed` class and is no longer
 watched. Without observer support every element is revealed at once.
 Elements are numbered in document order; when an element counts as
 intersecting (the 15% threshold and the 40-pixel bottom margin) is
 browser geometry and arrives here as a flag on each report.
 */
module Reveal {

  /** Which elements carry `revealed`, and which the observer still
      watches. */
  datatype Reveal = Reveal(revealed: seq<bool>, watched: set<nat>)

  /** An element is watched exactly while it is not yet revealed. */
  predicate Consistent(r: Reveal) {
    && (forall i :: i in r.watched ==> i < |r.revealed| && !r.revealed[i])
    && (forall i :: 0 <= i < |r.revealed| && !r.revealed[i] ==> i in r.watched)
  }

  /** The set of element numbers below `n`. */
  function Below(n: nat): (s: set<nat>)
    ensures forall i: nat :: i in s <==> i < n
  {
    if n == 0 then {} else Below(n - 1) + {n - 1}
  }

  /** Setting up (main.js:160-183) for `count` elements: with observer
      support all are watched and none is revealed yet; without it all are
      revealed and none is watched. */
  function Init(count: nat, observerAvailable: bool): (r: Reveal)
    ensures |r.revealed| == count
    ensures Consistent(r)
    ensures observerAvailable ==> forall i :: 0 <= i < count ==> !r.revealed[i]
    ensures !observerAvailable ==> r.watched == {} && forall i :: 0 <= i < count ==> r.revealed[i]
  {
    if observerAvailable then Reveal(seq(count, _ => false), Below(count))
    else Reveal(seq(count, _ => true), {})
  }

  /** One report of the observer: the element it concerns and whether it
      now intersects the viewport. */
  datatype Entry = Entry(target: nat, isIntersecting: bool)

  /** Some report in `entries` says element `i` intersects. */
  predicate SeenIntersecting(entries: seq<Entry>, i: nat) {
    exists k :: 0 <= k < |entries| && entries[k].target == i && entries[k].isIntersecting
  }

  /** The elements some report says intersect. */
  function IntersectingTargets(entries: seq<Entry>): (s: set<nat>)
    ensures forall i :: i in s <==> SeenIntersecting(entries, i)
  {
    set k | 0 <= k < |entries| && entries[k].isIntersecting :: entries[k].target
  }

  /** One report handled: an intersecting element is revealed and
      unwatched; anything else changes nothing. */
  function OnEntry(r: Reveal, e: Entry): (s: Reveal)
    requires e.target < |r.revealed|
    ensures |s.revealed| == |r.revealed|
    ensures e.isIntersecting ==> s.revealed[e.target] && e.target !in s.watched
    ensures forall i :: 0 <= i < |r.revealed| && i != e.target ==> s.revealed[i] == r.revealed[i]
    ensures !e.isIntersecting ==> s == r
  {
    if e.isIntersecting
    then Reveal(r.revealed[e.target := true], r.watched - {e.target})
    else r
  }

  /** The observer's callback for a batch of reports, handled in order:
      the revealed elements are those revealed before and those some
      report says intersect, and those stop being watched. */
  function OnEntries(r: Reveal, entries: seq<Entry>): (s: Reveal)
    requires forall k :: 0 <= k < |entries| ==> entries[k].target < |r.revealed|
    ensures |s.revealed| == |r.revealed|
    ensures forall i :: 0 <= i < |r.revealed| ==>
              (s.revealed[i] <==> r.revealed[i] || SeenIntersecting(entries, i))
    ensures s.watched == r.watched - IntersectingTargets(entries)
    decreases |entries|
  {
    if entries == [] then r
    else
      var rest := OnEntries(OnEntry(r, entries[0]), entries[1..]);
      assert forall i :: SeenIntersecting(entries, i) <==>
        (entries[0].target == i && entries[0].isIntersecting) || SeenIntersecting(entries[1..], i) by {
        forall i ensures SeenIntersecting(entries, i) ==>
          (entries[0].target == i && entries[0].isIntersecting) || SeenIntersecting(entries[1..], i) {
          if SeenIntersecting(entries, i) && !(entries[0].target == i && entries[0].isIntersecting) {
            var k :| 0 <= k < |entries| && entries[k].target == i && entries[k].isIntersecting;
            assert entries[1..][k - 1] == entries[k];
          }
        }
        forall i | SeenIntersecting(entries[1..], i) ensures SeenIntersecting(entries, i) {
          var k :| 0 <= k < |entries[1..]| && entries[1..][k].target == i && entries[1..][k].isIntersecting;
          assert entries[k + 1] == entries[1..][k];
        }
      }
      rest
  }

  /** Reveal is one-way: no report ever takes the class away. */
  lemma OnEntriesNeverHides(r: Reveal, entries: seq<Entry>, i: nat)
    requires forall k :: 0 <= k < |entries| ==> entries[k].target < |r.revealed|
    requires i < |r.revealed| && r.revealed[i]
    ensures OnEntries(r, entries).revealed[i]
  {
  }

  /** Handling reports keeps "watched exactly while not revealed". */
  lemma OnEntriesKeepsConsistent(r: Reveal, entries: seq<Entry>)
    requires forall k :: 0 <= k < |entries| ==> entries[k].target < |r.revealed|
    requires Consistent(r)
    ensures Consistent(OnEntries(r, entries))
  {
    var s := OnEntries(r, entries);
    forall i | i in s.watched ensures i < |s.revealed| && !s.revealed[i] {
      assert i in r.watched && !SeenIntersecting(entries, i);
    }
    forall i | 0 <= i < |s.revealed| && !s.revealed[i] ensures i in s.watched {
      assert !r.revealed[i] && !SeenIntersecting(entries, i);
    }
  }

  /** Once every element has been reported intersecting, all are revealed
      and the observer watches nothing. */
  lemma AllSeenAllRevealed(r: Reveal, entries: seq<Entry>)
    requires forall k :: 0 <= k < |entries| ==> entries[k].target < |r.revealed|
    requires Consistent(r)
    requires forall i :: 0 <= i < |r.revealed| ==> SeenIntersecting(entries, i)
    ensures forall i :: 0 <= i < |r.revealed| ==> OnEntries(r, entries).revealed[i]
    ensures OnEntries(r, entries).watched == {}
  {
    forall i | i in r.watched ensures i in IntersectingTargets(entries) {
      assert i < |r.revealed|;
    }
  }
}
