/**
 * The active-section tracker of the portfolio page (components/portfolio-client.jsx).
 *
 * One state cell, `activeSection`, has two independent writers: the
 * per-section intersection callbacks and the scroll handler. Whichever runs
 * last wins. DOM elements are abstracted to "anchors": `None` while a
 * section's ref is not attached, `Some(offsetTop)` once it is.
 */
module SectionTracker {
  import opened Wrappers

  /** The section ids in page order; the scroll handler's tie-break depends on this order. */
  const Sections: seq<string> := ["header", "skills", "projects", "contact"]

  /** A section's boundary element: `None` while its ref is null, else `Some(offsetTop)`. */
  type Anchor = Option<int>

  /** The scroll handler's reference point, `scrollY + innerHeight / 3`, kept exact. */
  function ReferencePoint(scrollY: real, innerHeight: real): (r: real)
    ensures innerHeight >= 0.0 ==> scrollY <= r <= scrollY + innerHeight
    ensures innerHeight >= 0.0 ==> 3.0 * (r - scrollY) == innerHeight
  {
    scrollY + innerHeight / 3.0
  }

  /** The scroll handler's test for one section: attached and `scrollPosition >= offsetTop`. */
  predicate Passed(anchor: Anchor, refPoint: real): (passed: bool)
    ensures anchor.None? ==> !passed
    ensures anchor.Some? ==> (passed <==> anchor.value as real <= refPoint)
  {
    anchor.Some? && refPoint >= anchor.value as real
  }

  /**
   * Reference definition of the scroll handler's choice: the highest index
   * whose anchor has been passed, or `None` when no attached anchor has.
   */
  function LastPassed(anchors: seq<Anchor>, refPoint: real): (r: Option<nat>)
    ensures r.Some? ==> r.value < |anchors| && Passed(anchors[r.value], refPoint)
    ensures r.Some? ==> forall j :: r.value < j < |anchors| ==> !Passed(anchors[j], refPoint)
    ensures r.None? <==> forall j :: 0 <= j < |anchors| ==> !Passed(anchors[j], refPoint)
    decreases |anchors|
  {
    if anchors == [] then None
    else if Passed(anchors[|anchors| - 1], refPoint) then Some(|anchors| - 1)
    else LastPassed(anchors[..|anchors| - 1], refPoint)
  }

  /**
   * With the anchors fixed, a reference point further down the page
   * (`r1 <= r2`) never selects an earlier section.
   */
  lemma ScrollChoiceMonotone(anchors: seq<Anchor>, r1: real, r2: real)
    requires r1 <= r2
    requires LastPassed(anchors, r1).Some?
    ensures LastPassed(anchors, r2).Some?
    ensures LastPassed(anchors, r1).value <= LastPassed(anchors, r2).value
  {
  }

  /**
   * Worked example: tops 0, 400, 900 and 1500, a 600-pixel viewport
   * scrolled to 500. The reference point is 700, "projects" (900) has not
   * been passed, so "skills" is chosen.
   */
  lemma ScrollExample()
    ensures ReferencePoint(500.0, 600.0) == 700.0
    ensures LastPassed([Some(0), Some(400), Some(900), Some(1500)], 700.0) == Some(1)
    ensures Sections[1] == "skills"
  {
  }

  /** The lookup `sectionRefs[sectionId]`: the position of a known id. */
  function IndexOf(sectionId: string): (k: nat)
    requires sectionId in Sections
    ensures k < |Sections| && Sections[k] == sectionId
  {
    if sectionId == Sections[0] then 0
    else if sectionId == Sections[1] then 1
    else if sectionId == Sections[2] then 2
    else 3
  }

  /**
   * `scrollToSection(id)`: one smooth-scroll request to the anchor of `id`
   * when it is attached, none otherwise. The result is the index of the
   * anchor the request targets; the active section plays no part.
   */
  function ScrollRequest(anchors: seq<Anchor>, sectionId: string): (request: Option<nat>)
    requires |anchors| == |Sections| && sectionId in Sections
    ensures request.Some? ==> request.value < |Sections| && Sections[request.value] == sectionId
    ensures request.Some? <==> exists k :: 0 <= k < |Sections| && Sections[k] == sectionId && anchors[k].Some?
  {
    var k := IndexOf(sectionId);
    if anchors[k].Some? then Some(k) else None
  }

  /** The indices an observer is attached to when observation is set up over `anchors`. */
  function ObservedSections(anchors: seq<Anchor>): (observed: set<nat>)
    ensures forall k: nat :: k in observed <==> k < |anchors| && anchors[k].Some?
  {
    set k: nat | k < |anchors| && anchors[k].Some?
  }

  /**
   * The anchors a commit leaves behind. Before `mounted` is set the page
   * renders nothing, so no section ref is attached; afterwards every
   * section's element is in the DOM at the given offsets.
   */
  function CommittedAnchors(mounted: bool, tops: seq<int>): (anchors: seq<Anchor>)
    ensures |anchors| == |tops|
    ensures forall k :: 0 <= k < |tops| ==> anchors[k] == if mounted then Some(tops[k]) else None
  {
    seq(|tops|, k requires 0 <= k < |tops| => if mounted then Some(tops[k]) else None)
  }

  /**
   * As written, the observer effect runs once, after the first commit, in
   * which the page rendered nothing: no observer watches any element and the
   * mount-time scroll check selects nothing.
   */
  lemma FirstCommitObservesNothing(tops: seq<int>, refPoint: real)
    ensures ObservedSections(CommittedAnchors(false, tops)) == {}
    ensures LastPassed(CommittedAnchors(false, tops), refPoint).None?
  {
  }

  /** Set up once the page is mounted, observation covers every section. */
  lemma MountedCommitObservesAll(tops: seq<int>)
    requires |tops| == |Sections|
    ensures ObservedSections(CommittedAnchors(true, tops)) == {0, 1, 2, 3}
  {
  }

  class Tracker {
    /** The id of the section highlighted in the navigation. */
    var activeSection: string
    /** Indices of the sections whose element an intersection observer watches. */
    var observed: set<nat>

    ghost predicate Valid()
      reads this
    {
      && activeSection in Sections
      && forall k :: k in observed ==> k < |Sections|
    }

    /** `useState("header")`; no observer is set up yet. */
    constructor ()
      ensures Valid()
      ensures activeSection == Sections[0] == "header"
      ensures observed == {}
    {
      activeSection := "header";
      observed := {};
    }

    /** The observer effect: one observer per section, observing only attached elements. */
    method ObserveSections(anchors: seq<Anchor>)
      requires Valid() && |anchors| == |Sections|
      modifies this
      ensures Valid()
      ensures activeSection == old(activeSection)
      ensures observed == ObservedSections(anchors)
    {
      observed := {};
      var k := 0;
      while k < |anchors|
        invariant 0 <= k <= |anchors|
        invariant forall j: nat :: j in observed <==> j < k && anchors[j].Some?
        invariant activeSection == old(activeSection)
      {
        if anchors[k].Some? {
          observed := observed + {k};
        }
        k := k + 1;
      }
    }

    /**
     * The intersection callback of section `section`; it only runs for an
     * observed element and writes only when the entry is intersecting.
     */
    method OnIntersect(section: nat, isIntersecting: bool)
      requires Valid() && section in observed
      modifies this
      ensures Valid()
      ensures observed == old(observed)
      ensures activeSection == if isIntersecting then Sections[section] else old(activeSection)
    {
      if isIntersecting {
        activeSection := Sections[section];
      }
    }

    /**
     * `handleScroll`: walk the sections from last to first, skip detached
     * ones, and select the first whose top is at or above `refPoint`.
     */
    method OnScroll(anchors: seq<Anchor>, refPoint: real)
      requires Valid() && |anchors| == |Sections|
      modifies this
      ensures Valid()
      ensures observed == old(observed)
      ensures match LastPassed(anchors, refPoint)
              case Some(k) => activeSection == Sections[k]
              case None => activeSection == old(activeSection)
    {
      var i := |anchors| - 1;
      while i >= 0
        invariant -1 <= i < |anchors|
        invariant forall j :: i < j < |anchors| ==> !Passed(anchors[j], refPoint)
        invariant activeSection == old(activeSection)
      {
        if anchors[i].Some? {
          var offsetTop := anchors[i].value;
          if refPoint >= offsetTop as real {
            activeSection := Sections[i];
            break;
          }
        }
        i := i - 1;
      }
    }
  }
}
