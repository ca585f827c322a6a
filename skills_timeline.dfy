/**
 * The discrete bookkeeping of the skills timeline: the active milestone and
 * the explosion / UFO flags derived from scroll progress, the bounded trail
 * of dots left behind the UFO, the fade tick that dims and drops them, and
 * the opacity and scale of each milestone card. Decimal constants are reals.
 */
module SkillsTimeline {

  /** Five milestones are shown, at indices 0 to 4. */
  const MilestoneCount := 5
  /** Past this progress the UFO explodes. */
  const ExplosionThreshold: real := 0.88
  /** At most this many trail dots are kept. */
  const TrailLimit := 25
  /** A fade tick lowers every dot's opacity by this much. */
  const FadeStep: real := 0.05

  // ------------------------------------------------ milestones and flags

  /** `Math.min(Math.floor(latest * 6), 5)` */
  function MilestoneIndex(latest: real): (r: int)
    ensures r <= MilestoneCount
  {
    var f := (latest * 6.0).Floor;
    if f < 5 then f else 5
  }

  /**
   * For progress in [0, 1] the active milestone is 0 to 5, where 5 is one
   * past the last milestone and is reached exactly from progress 5/6 on;
   * below it, progress lies in the milestone's sixth of the range.
   */
  lemma MilestoneIndexRange(latest: real)
    requires 0.0 <= latest <= 1.0
    ensures var m := MilestoneIndex(latest);
            && 0 <= m <= MilestoneCount
            && (m == MilestoneCount <==> latest * 6.0 >= 5.0)
            && (m < MilestoneCount ==> m as real <= latest * 6.0 < m as real + 1.0)
  {
  }

  /** Scrolling further never moves the active milestone back. */
  lemma MilestoneIndexMonotonic(a: real, b: real)
    requires a <= b
    ensures MilestoneIndex(a) <= MilestoneIndex(b)
  {
    assert (a * 6.0).Floor <= (b * 6.0).Floor;
  }

  /** The explosion shows exactly past the threshold. */
  predicate ShowExplosion(latest: real)
  {
    latest > ExplosionThreshold
  }

  // ---------------------------------------------------------- trail dots

  datatype Point = Point(x: real, y: real)

  /** `Math.sqrt(dx * dx + dy * dy) > 2`, stated without the root: the squared distance exceeds 4. */
  predicate MovedEnough(from: Point, to: Point)
  {
    var dx, dy := to.x - from.x, to.y - from.y;
    dx * dx + dy * dy > 4.0
  }

  datatype TrailDot = TrailDot(id: nat, x: real, y: real, opacity: real)

  /** The dots' ids increase strictly from first to last. */
  predicate IdsIncreasing(dots: seq<TrailDot>)
  {
    forall i, j :: 0 <= i < j < |dots| ==> dots[i].id < dots[j].id
  }

  /** Every dot is still visible and no brighter than a new one. */
  predicate OpacitiesInRange(dots: seq<TrailDot>)
  {
    forall i :: 0 <= i < |dots| ==> 0.0 < dots[i].opacity <= 1.0
  }

  /** `.slice(-k)`: the last `k` elements, or all of them when there are fewer. */
  function KeepLast<T>(s: seq<T>, k: nat): (r: seq<T>)
    ensures |r| == if |s| <= k then |s| else k
    ensures r == s[|s| - |r|..]
  {
    if |s| <= k then s else s[|s| - k..]
  }

  /**
   * Appending a dot keeps the new dot last, keeps the older dots in their
   * order, and leaves at most `TrailLimit` dots.
   */
  lemma AppendKeepsOrder(dots: seq<TrailDot>, dot: TrailDot)
    ensures var r := KeepLast(dots + [dot], TrailLimit);
            && 1 <= |r| <= TrailLimit
            && r[|r| - 1] == dot
            && r[..|r| - 1] == dots[|dots| + 1 - |r|..]
  {
    var s := dots + [dot];
    var r := KeepLast(s, TrailLimit);
    assert r[..|r| - 1] == s[|s| - |r|..|s| - 1];
    assert s[..|s| - 1] == dots;
  }

  /** A suffix of dots with increasing ids has increasing ids. */
  lemma KeepLastIncreasing(dots: seq<TrailDot>, k: nat)
    requires IdsIncreasing(dots)
    ensures IdsIncreasing(KeepLast(dots, k))
  {
    var r := KeepLast(dots, k);
    var off := |dots| - |r|;
    forall i, j | 0 <= i < j < |r| ensures r[i].id < r[j].id {
      assert r[i] == dots[off + i] && r[j] == dots[off + j];
    }
  }

  /** `dot => ({ ...dot, opacity: dot.opacity - 0.05 })` */
  function Dimmed(dot: TrailDot): TrailDot
  {
    dot.(opacity := dot.opacity - FadeStep)
  }

  /** `prev.map(dim).filter(dot => dot.opacity > 0)` */
  function Fade(dots: seq<TrailDot>): (r: seq<TrailDot>)
    ensures |r| <= |dots|
  {
    if dots == [] then []
    else
      var rest := Fade(dots[1..]);
      var d := Dimmed(dots[0]);
      if d.opacity > 0.0 then [d] + rest else rest
  }

  /** Every dot a fade tick keeps is visible and is the dimmed form of a dot it was given. */
  lemma {:induction false} FadeKeepsDimmed(dots: seq<TrailDot>)
    ensures forall e :: e in Fade(dots) ==> e.opacity > 0.0 && e.(opacity := e.opacity + FadeStep) in dots
  {
    if dots != [] {
      FadeKeepsDimmed(dots[1..]);
      var d := Dimmed(dots[0]);
      assert d.(opacity := d.opacity + FadeStep) == dots[0];
    }
  }

  /** Every dot still visible after dimming survives a fade tick. */
  lemma {:induction false} FadeKeepsVisible(dots: seq<TrailDot>)
    ensures forall d :: d in dots && d.opacity > FadeStep ==> Dimmed(d) in Fade(dots)
  {
    if dots != [] {
      FadeKeepsVisible(dots[1..]);
      assert forall d :: d in dots ==> d == dots[0] || d in dots[1..];
    }
  }

  /** A fade tick keeps the order of the dots: ids still increase. */
  lemma {:induction false} FadeKeepsOrder(dots: seq<TrailDot>)
    requires IdsIncreasing(dots)
    ensures IdsIncreasing(Fade(dots))
  {
    if dots != [] {
      var rest := dots[1..];
      assert IdsIncreasing(rest);
      FadeKeepsOrder(rest);
      FadeIdsWithin(rest, dots[0].id, dots[|dots| - 1].id + 1);
    }
  }

  /** The dots kept by a fade tick come from `dots`, so their ids stay strictly between any bounds all of `dots` respects. */
  lemma {:induction false} FadeIdsWithin(dots: seq<TrailDot>, low: int, high: int)
    requires forall i :: 0 <= i < |dots| ==> low < dots[i].id < high
    ensures forall i :: 0 <= i < |Fade(dots)| ==> low < Fade(dots)[i].id < high
  {
    if dots != [] {
      FadeIdsWithin(dots[1..], low, high);
    }
  }

  /** A fade tick keeps opacities in range. */
  lemma {:induction false} FadeInRange(dots: seq<TrailDot>)
    requires OpacitiesInRange(dots)
    ensures OpacitiesInRange(Fade(dots))
  {
    if dots != [] {
      FadeInRange(dots[1..]);
    }
  }

  /** `k` fade ticks in a row. */
  function FadeTimes(dots: seq<TrailDot>, k: nat): seq<TrailDot>
  {
    if k == 0 then dots else Fade(FadeTimes(dots, k - 1))
  }

  /** After `k` ticks every remaining dot has lost at least `k` steps of opacity. */
  lemma {:induction false} FadeTimesBound(dots: seq<TrailDot>, k: nat)
    requires OpacitiesInRange(dots)
    ensures forall e :: e in FadeTimes(dots, k) ==> e.opacity <= 1.0 - k as real * FadeStep
  {
    if k > 0 {
      FadeTimesBound(dots, k - 1);
      FadeKeepsDimmed(FadeTimes(dots, k - 1));
    }
  }

  /** A fade tick drops every dot with no more than one step of opacity left. */
  lemma {:induction false} FadeSpent(dots: seq<TrailDot>)
    requires forall i :: 0 <= i < |dots| ==> dots[i].opacity <= FadeStep
    ensures Fade(dots) == []
  {
    if dots != [] {
      FadeSpent(dots[1..]);
    }
  }

  /** With no new dots, twenty ticks clear the trail. */
  lemma TrailClearsAfterTwentyTicks(dots: seq<TrailDot>)
    requires OpacitiesInRange(dots)
    ensures FadeTimes(dots, 20) == []
  {
    var s := FadeTimes(dots, 19);
    FadeTimesBound(dots, 19);
    assert forall i :: 0 <= i < |s| ==> s[i] in s;
    FadeSpent(s);
  }

  // ---------------------------------------------------- milestone styling

  /** `getMilestoneOpacity` */
  function MilestoneOpacity(index: int, active: int): (r: real)
    ensures 0.3 <= r <= 1.0
  {
    if index == active then 1.0
    else if index < active then
      var fall := 1.0 - (active - index) as real * 0.2;
      if fall < 0.3 then 0.3 else fall
    else 0.6
  }

  /**
   * Only the active milestone is fully opaque; earlier ones fade by a fifth
   * per step down to 0.3, so they stay in [0.3, 0.8]; later ones are at 0.6.
   */
  lemma MilestoneOpacitySpec(index: int, active: int)
    ensures var r := MilestoneOpacity(index, active);
            && (r == 1.0 <==> index == active)
            && (index < active ==> 0.3 <= r <= 0.8)
            && (index == active - 1 ==> r == 0.8)
            && (index == active - 2 ==> r == 0.6)
            && (index == active - 3 ==> r == 0.4)
            && (index <= active - 4 ==> r == 0.3)
            && (index > active ==> r == 0.6)
  {
  }

  /** Among earlier milestones, the closer to the active one, the more opaque. */
  lemma MilestoneOpacityFades(i: int, j: int, active: int)
    requires i <= j < active
    ensures MilestoneOpacity(i, active) <= MilestoneOpacity(j, active)
  {
  }

  /** `getMilestoneScale` */
  function MilestoneScale(index: int, active: int): (r: real)
    ensures 0.95 <= r <= 1.0
  {
    if index == active then 1.0 else if index < active then 0.95 else 0.98
  }

  /** The active milestone is the only full-size card; earlier cards are smaller than later ones. */
  lemma MilestoneScaleSpec(index: int, active: int)
    ensures var r := MilestoneScale(index, active);
            && (r == 1.0 <==> index == active)
            && (index < active ==> r == 0.95)
            && (index > active ==> r == 0.98)
  {
  }

  /** Past the last milestone (active index 5) no card is shown as active. */
  lemma NoActiveCardPastTheEnd(index: int)
    requires 0 <= index < MilestoneCount
    ensures MilestoneOpacity(index, MilestoneCount) < 1.0
    ensures MilestoneScale(index, MilestoneCount) < 1.0
  {
  }

  /** Cards at even indices sit on the left. */
  predicate IsLeft(index: nat)
  {
    index % 2 == 0
  }

  /** Consecutive cards alternate sides. */
  lemma SidesAlternate(index: nat)
    ensures IsLeft(index) != IsLeft(index + 1)
  {
  }

  // ---------------------------------------------------------- the state

  class Timeline {
    var activeMilestone: int
    var showExplosion: bool
    var ufoVisible: bool
    var trailDots: seq<TrailDot>
    /** `lastDotPositionRef.current` */
    var lastDotPosition: Point
    /** `dotIdRef.current`: the id the next dot gets. */
    var nextDotId: nat

    ghost predicate Valid()
      reads this
    {
      && |trailDots| <= TrailLimit
      && IdsIncreasing(trailDots)
      && (forall i :: 0 <= i < |trailDots| ==> trailDots[i].id < nextDotId)
      && OpacitiesInRange(trailDots)
      && ufoVisible == !showExplosion
    }

    constructor ()
      ensures Valid()
      ensures activeMilestone == 0 && !showExplosion && ufoVisible
      ensures trailDots == [] && lastDotPosition == Point(0.0, 0.0) && nextDotId == 0
    {
      activeMilestone := 0;
      showExplosion := false;
      ufoVisible := true;
      trailDots := [];
      lastDotPosition := Point(0.0, 0.0);
      nextDotId := 0;
    }

    /**
     * The scroll-progress change handler, given whether the container is
     * mounted and where the UFO now is. A dot is dropped only before the
     * threshold and only when the UFO has moved more than 2 from the last
     * dot.
     */
    method OnScrollChange(latest: real, mounted: bool, ufo: Point)
      requires Valid()
      modifies this
      ensures Valid()
      ensures activeMilestone == MilestoneIndex(latest)
      ensures showExplosion == ShowExplosion(latest) && ufoVisible == !ShowExplosion(latest)
      ensures var appended := mounted && latest < ExplosionThreshold && MovedEnough(old(lastDotPosition), ufo);
              && (appended ==>
                    && trailDots == KeepLast(old(trailDots) + [TrailDot(old(nextDotId), ufo.x, ufo.y, 1.0)], TrailLimit)
                    && nextDotId == old(nextDotId) + 1
                    && lastDotPosition == ufo)
              && (!appended ==>
                    && trailDots == old(trailDots)
                    && nextDotId == old(nextDotId)
                    && lastDotPosition == old(lastDotPosition))
    {
      activeMilestone := MilestoneIndex(latest);
      if latest > ExplosionThreshold {
        showExplosion := true;
        ufoVisible := false;
      } else {
        showExplosion := false;
        ufoVisible := true;
      }
      if mounted && latest < ExplosionThreshold {
        if MovedEnough(lastDotPosition, ufo) {
          var dot := TrailDot(nextDotId, ufo.x, ufo.y, 1.0);
          nextDotId := nextDotId + 1;
          AppendIncreasing(trailDots, dot);
          trailDots := KeepLast(trailDots + [dot], TrailLimit);
          lastDotPosition := ufo;
        }
      }
    }

    /** One firing of the 100 ms fade interval. */
    method FadeTick()
      requires Valid()
      modifies this
      ensures Valid()
      ensures trailDots == Fade(old(trailDots))
      ensures activeMilestone == old(activeMilestone) && showExplosion == old(showExplosion)
      ensures ufoVisible == old(ufoVisible) && lastDotPosition == old(lastDotPosition)
      ensures nextDotId == old(nextDotId)
    {
      FadeKeepsOrder(trailDots);
      FadeInRange(trailDots);
      FadeIdsWithin(trailDots, -1, nextDotId);
      trailDots := Fade(trailDots);
    }
  }

  /** Appending a dot whose id exceeds all others, then keeping the last 25, keeps ids increasing and opacities in range. */
  lemma AppendIncreasing(dots: seq<TrailDot>, dot: TrailDot)
    requires IdsIncreasing(dots) && OpacitiesInRange(dots) && 0.0 < dot.opacity <= 1.0
    requires forall i :: 0 <= i < |dots| ==> dots[i].id < dot.id
    ensures IdsIncreasing(KeepLast(dots + [dot], TrailLimit))
    ensures OpacitiesInRange(KeepLast(dots + [dot], TrailLimit))
    ensures forall e :: e in KeepLast(dots + [dot], TrailLimit) ==> e.id <= dot.id
  {
    var s := dots + [dot];
    assert IdsIncreasing(s);
    KeepLastIncreasing(s, TrailLimit);
    var r := KeepLast(s, TrailLimit);
    forall i | 0 <= i < |r| ensures 0.0 < r[i].opacity <= 1.0 && r[i].id <= dot.id {
      assert r[i] == s[|s| - |r| + i];
    }
  }
}
