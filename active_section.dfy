// The scroll handler's choice of the active section: the first section, in
// page order, whose element exists and whose bounding box straddles the
// horizontal line 100 pixels below the top of the viewport.

module ActiveSection {
  import opened Sections

  /** The vertical extent of an element's bounding client rectangle, in
      viewport coordinates. The handler only compares these with constants. */
  datatype Rect = Rect(top: real, bottom: real)

  /** The probe line used by the containment test. */
  const ProbeLine: real := 100.0

  /** The scroll offset above which the scroll-to-top button is shown. */
  const ScrollTopThreshold: real := 300.0

  /** The geometry the handler reads on one scroll event: the rectangle of
      each section whose element is in the document. A section missing from
      the map is one whose element `getElementById` does not find. */
  type Layout = map<Section, Rect>

  /** The containment test, inclusive at both ends. */
  predicate Straddles(r: Rect)
  {
    r.top <= ProbeLine && r.bottom >= ProbeLine
  }

  /** The predicate given to `find`: the element exists and straddles the line. */
  predicate Matches(layout: Layout, s: Section)
  {
    s in layout && Straddles(layout[s])
  }

  /** `find` over the candidates: the first one that matches, if any. */
  function FirstMatch(candidates: seq<Section>, layout: Layout): (r: Option<Section>)
    ensures r.None? <==> forall i :: 0 <= i < |candidates| ==> !Matches(layout, candidates[i])
    ensures r.Some? ==> exists i :: 0 <= i < |candidates| && candidates[i] == r.value
                          && Matches(layout, candidates[i])
                          && forall j :: 0 <= j < i ==> !Matches(layout, candidates[j])
  {
    if candidates == [] then None
    else if Matches(layout, candidates[0]) then Some(candidates[0])
    else
      var r := FirstMatch(candidates[1..], layout);
      assert forall i :: 1 <= i < |candidates| ==> candidates[i] == candidates[1..][i - 1];
      r
  }

  /** The active section after a scroll event: the first match in page order,
      or the previous active section when nothing matches. */
  function NextActive(previous: Section, layout: Layout): (r: Section)
    ensures Matches(layout, r) || (r == previous && forall s :: !Matches(layout, s))
  {
    match FirstMatch(Order, layout)
    case Some(s) => s
    case None =>
      NothingInOrderMatches(layout);
      previous
  }

  /** Every section is in the scan order, so a scan with no match means no section matches. */
  lemma NothingInOrderMatches(layout: Layout)
    requires forall i :: 0 <= i < |Order| ==> !Matches(layout, Order[i])
    ensures forall s :: !Matches(layout, s)
  {
    forall s
      ensures !Matches(layout, s)
    {
      assert Order[IndexOf(s)] == s;
    }
  }

  /** If the `k`-th section matches and none before it does, it becomes active,
      whatever the previous active section was. */
  lemma NextActiveIsFirstMatch(previous: Section, layout: Layout, k: int)
    requires 0 <= k < |Order| && Matches(layout, Order[k])
    requires forall j :: 0 <= j < k ==> !Matches(layout, Order[j])
    ensures NextActive(previous, layout) == Order[k]
  {
  }

  /** When some section matches, the new active section is one that matches. */
  lemma NextActiveMatches(previous: Section, layout: Layout, s: Section)
    requires Matches(layout, s)
    ensures Matches(layout, NextActive(previous, layout))
  {
    assert Matches(layout, Order[IndexOf(s)]);
  }

  /** With no section matching, the active section is kept. */
  lemma NextActiveKeepsWhenNothingMatches(previous: Section, layout: Layout)
    requires forall s :: !Matches(layout, s)
    ensures NextActive(previous, layout) == previous
  {
  }

  /** A section whose element is missing never becomes active: it is active
      afterwards only if it already was. */
  lemma MissingNeverBecomesActive(previous: Section, layout: Layout, s: Section)
    requires s !in layout
    ensures NextActive(previous, layout) == s ==> previous == s
  {
  }

  /** A section whose box does not straddle the probe line never becomes active. */
  lemma NonStraddlingNeverBecomesActive(previous: Section, layout: Layout, s: Section)
    requires s in layout && !Straddles(layout[s])
    ensures NextActive(previous, layout) == s ==> previous == s
  {
  }

  /** The test is inclusive at both ends, so a box of zero height lying
      exactly on the probe line still matches. */
  lemma ZeroHeightOnProbeLineMatches(s: Section, y: real)
    ensures Matches(map[s := Rect(y, y)], s) <==> y == ProbeLine
  {
  }
}
