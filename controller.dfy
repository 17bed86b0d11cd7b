// The Portfolio page's scroll/visibility controller: three pieces of state
// and the two event handlers that update them.

module Controller {
  import opened Sections
  import opened ActiveSection
  import opened Reveal

  class Portfolio {
    /** The section highlighted in the navigation bar. */
    var activeSection: Section
    /** Whether the scroll-to-top button is shown. */
    var showScrollTop: bool
    /** The sections whose entrance transition has been triggered. */
    var isVisible: Revealed

    /** Only `true` is ever stored in the revealed map. */
    ghost predicate Valid()
      reads this
    {
      AllTrue(isVisible)
    }

    /** The state of a freshly mounted page. */
    constructor ()
      ensures Valid()
      ensures activeSection == Home && !showScrollTop && isVisible == map[]
    {
      activeSection := Home;
      showScrollTop := false;
      isVisible := map[];
    }

    /** The scroll listener: the button flag follows the scroll offset alone,
        and the active section moves to the first section straddling the
        probe line, staying put when none does. */
    method OnScroll(scrollY: real, layout: Layout)
      requires Valid()
      modifies this
      ensures Valid()
      ensures showScrollTop <==> scrollY > ScrollTopThreshold
      ensures activeSection == NextActive(old(activeSection), layout)
      ensures isVisible == old(isVisible)
    {
      showScrollTop := scrollY > ScrollTopThreshold;
      var current := FirstMatch(Order, layout);
      if current.Some? {
        activeSection := current.value;
      }
    }

    /** The intersection observer callback: each intersecting entry, in
        order, marks its section revealed. */
    method OnIntersect(entries: seq<Entry>)
      requires Valid()
      modifies this
      ensures Valid()
      ensures isVisible == RevealBatch(old(isVisible), entries)
      ensures activeSection == old(activeSection) && showScrollTop == old(showScrollTop)
    {
      var i := 0;
      while i < |entries|
        invariant 0 <= i <= |entries|
        invariant RevealBatch(isVisible, entries[i..]) == RevealBatch(old(isVisible), entries)
        invariant AllTrue(isVisible)
        invariant activeSection == old(activeSection) && showScrollTop == old(showScrollTop)
      {
        var entry := entries[i];
        if entry.isIntersecting {
          isVisible := isVisible[entry.target := true];
        }
        i := i + 1;
      }
    }
  }
}
