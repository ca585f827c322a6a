/**
 * The header's scroll handler: the scrolled flag and the choice of the
 * active navigation link. The DOM lookups are abstracted as one optional
 * top coordinate per link: `None` when the section element is missing.
 */
module Header {
  import opened Wrappers

  /** The ids of the navigation links, in menu order. */
  const NavIds: seq<string> := ["home", "about", "skills", "projects", "contact"]

  /** A section counts as reached when its top is above this line. */
  const ActiveLine: real := 160.0
  /** The header shrinks once the page has scrolled past this offset. */
  const ScrolledOffset: real := 40.0

  /** Link `k`'s section exists and its top is above the line. */
  predicate Reached(tops: seq<Option<real>>, k: nat)
    requires k < |tops|
  {
    tops[k].Some? && tops[k].value < ActiveLine
  }

  /** The last reached link, in list order; `None` when no link is reached. */
  function LastReached(tops: seq<Option<real>>): (r: Option<nat>)
    ensures r.Some? ==> r.value < |tops|
  {
    if tops == [] then None
    else if Reached(tops, |tops| - 1) then Some(|tops| - 1)
    else LastReached(tops[..|tops| - 1])
  }

  /** `LastReached` picks a reached link with no reached link after it, and finds nothing only when no link is reached. */
  lemma {:induction false} LastReachedSpec(tops: seq<Option<real>>)
    ensures var r := LastReached(tops);
            && (r.Some? ==> r.value < |tops| && Reached(tops, r.value)
                            && forall j :: r.value < j < |tops| ==> !Reached(tops, j))
            && (r.None? ==> forall j :: 0 <= j < |tops| ==> !Reached(tops, j))
  {
    if tops != [] && !Reached(tops, |tops| - 1) {
      var front := tops[..|tops| - 1];
      LastReachedSpec(front);
      forall j | 0 <= j < |front| ensures Reached(front, j) == Reached(tops, j) {
        assert front[j] == tops[j];
      }
    }
  }

  /**
   * The loop over the links in reverse: skip a link whose section is
   * missing, stop at the first whose top is above the line.
   */
  method ScanReversed(tops: seq<Option<real>>) returns (found: Option<nat>)
    ensures found == LastReached(tops)
    ensures found.Some? ==> found.value < |tops| && Reached(tops, found.value)
  {
    LastReachedSpec(tops);
    found := None;
    var i := |tops|;
    assert tops[..i] == tops;
    while i > 0
      invariant 0 <= i <= |tops|
      invariant LastReached(tops) == LastReached(tops[..i])
    {
      var top := tops[i - 1];
      if top.None? {
        assert tops[..i][..i - 1] == tops[..i - 1];
        i := i - 1;
        continue;
      }
      if top.value < ActiveLine {
        found := Some(i - 1);
        return;
      }
      assert tops[..i][..i - 1] == tops[..i - 1];
      i := i - 1;
    }
  }

  class Header {
    var active: string
    var isScrolled: bool

    ghost predicate Valid()
      reads this
    {
      active in NavIds
    }

    /** Before any scroll the first link is active and the header is not shrunk. */
    constructor ()
      ensures Valid() && active == "home" && !isScrolled
    {
      active := "home";
      isScrolled := false;
    }

    /** `onScroll`, given the page offset and the current top of each link's section. */
    method OnScroll(scrollY: real, tops: seq<Option<real>>)
      requires Valid() && |tops| == |NavIds|
      modifies this
      ensures Valid()
      ensures isScrolled <==> scrollY > ScrolledOffset
      ensures match LastReached(tops)
              case Some(k) => active == NavIds[k]
              case None => active == old(active)
    {
      isScrolled := scrollY > ScrolledOffset;
      var found := ScanReversed(tops);
      if found.Some? {
        active := NavIds[found.value];
      }
    }
  }
}
