/** The scroll classifier: which section is current, which navigation link is
    marked active, and the two chrome markers (the compact navbar and the
    back-to-top button), all derived from the vertical scroll offset and the
    static page layout.

    The page is reduced to plain values: a section is its id, offsetTop and
    offsetHeight; a navigation link is its href, with a parallel array of
    `active` markers. */
module Navigation {
  import RateLimit

  datatype Section = Section(id: string, top: int, height: int)

  const SectionOffset: int := 100        // a section counts as reached 100 px before its top
  const ScrollThreshold: int := 100      // navbar gets `scrolled` beyond this offset
  const ScrollTopThreshold: int := 500   // back-to-top button gets `visible` beyond this offset
  const ScrollThrottleLimit: nat := 100  // the throttled scroll handler's interval, in ms

  /** The offset lies in the section's window [top - 100, top - 100 + height). */
  predicate Covers(section: Section, scrollY: int) {
    section.top - SectionOffset <= scrollY < section.top - SectionOffset + section.height
  }

  predicate NoneCoversAfter(sections: seq<Section>, k: int, scrollY: int) {
    forall j :: 0 <= j < |sections| && k < j ==> !Covers(sections[j], scrollY)
  }

  /** The current section: the id of the last section, in document order, whose
      window contains the offset, or the empty string when none does. */
  function ActiveSection(sections: seq<Section>, scrollY: int): string
    decreases |sections|
  {
    if |sections| == 0 then ""
    else if Covers(sections[|sections| - 1], scrollY) then sections[|sections| - 1].id
    else ActiveSection(sections[..|sections| - 1], scrollY)
  }

  /** Later sections win: the current section is the last covering one; with no
      covering section it is empty; and it is always empty or a covering section's id. */
  lemma {:induction false} ActiveSectionIsLastCovering(sections: seq<Section>, scrollY: int)
    ensures NoneCoversAfter(sections, -1, scrollY) ==> ActiveSection(sections, scrollY) == ""
    ensures forall k :: 0 <= k < |sections| && Covers(sections[k], scrollY) && NoneCoversAfter(sections, k, scrollY) ==>
      ActiveSection(sections, scrollY) == sections[k].id
    ensures ActiveSection(sections, scrollY) == "" ||
      exists k :: 0 <= k < |sections| && Covers(sections[k], scrollY) && ActiveSection(sections, scrollY) == sections[k].id
    decreases |sections|
  {
    if |sections| > 0 && !Covers(sections[|sections| - 1], scrollY) {
      var init := sections[..|sections| - 1];
      ActiveSectionIsLastCovering(init, scrollY);
      assert forall k :: 0 <= k < |init| ==> init[k] == sections[k];
    }
  }

  /** The `active` markers of the links once `current` is known: a link is marked
      exactly when its href is '#' followed by `current`. */
  function Marks(hrefs: seq<string>, current: string): (m: seq<bool>)
    ensures |m| == |hrefs|
    ensures forall k :: 0 <= k < |hrefs| ==> (m[k] <==> hrefs[k] == "#" + current)
  {
    seq(|hrefs|, k requires 0 <= k < |hrefs| => hrefs[k] == "#" + current)
  }

  /** The scan of updateActiveNavLink over the sections, in document order. */
  method CurrentSection(sections: seq<Section>, scrollY: int) returns (currentSection: string)
    ensures currentSection == ActiveSection(sections, scrollY)
  {
    currentSection := "";
    for i := 0 to |sections|
      invariant currentSection == ActiveSection(sections[..i], scrollY)
    {
      assert sections[..i + 1][..i] == sections[..i];
      var sectionTop := sections[i].top - SectionOffset;
      var sectionHeight := sections[i].height;
      if scrollY >= sectionTop && scrollY < sectionTop + sectionHeight {
        currentSection := sections[i].id;
      }
    }
    assert sections[..|sections|] == sections;
  }

  /** updateActiveNavLink: every link loses `active`, then exactly the links whose
      href is '#' followed by the current section's id get it back. The result does
      not depend on the markers before the call, so repeating the update with the
      same offset changes nothing. */
  method UpdateActiveNavLink(sections: seq<Section>, scrollY: int, hrefs: array<string>, active: array<bool>)
    requires hrefs.Length == active.Length
    modifies active
    ensures forall k :: 0 <= k < active.Length ==>
      (active[k] <==> hrefs[k] == "#" + ActiveSection(sections, scrollY))
    ensures active[..] == Marks(hrefs[..], ActiveSection(sections, scrollY))
  {
    var currentSection := CurrentSection(sections, scrollY);
    ghost var marks := Marks(hrefs[..], currentSection);
    for i := 0 to active.Length
      invariant forall k :: 0 <= k < i ==> active[k] == marks[k]
    {
      active[i] := false;
      if hrefs[i] == "#" + currentSection {
        active[i] := true;
      }
    }
    assert active[..] == marks;
  }

  /** When no section window contains the offset, the marker is cleared, not kept:
      only a link whose href is a bare '#' can be active. */
  lemma NoMatchClearsMarks(sections: seq<Section>, hrefs: seq<string>, scrollY: int)
    requires forall k :: 0 <= k < |sections| ==> !Covers(sections[k], scrollY)
    ensures forall k :: 0 <= k < |hrefs| ==> (Marks(hrefs, ActiveSection(sections, scrollY))[k] <==> hrefs[k] == "#")
  {
    ActiveSectionIsLastCovering(sections, scrollY);
    assert "#" + "" == "#";
  }

  /** With distinct hrefs, at most one link is active after an update. */
  lemma AtMostOneActive(hrefs: seq<string>, current: string, i: nat, j: nat)
    requires forall a, b :: 0 <= a < b < |hrefs| ==> hrefs[a] != hrefs[b]
    requires i < |hrefs| && j < |hrefs|
    requires Marks(hrefs, current)[i] && Marks(hrefs, current)[j]
    ensures i == j
  {
  }

  /** The navbar compacts strictly beyond 100 px. */
  predicate NavbarScrolled(scrollY: int) {
    scrollY > ScrollThreshold
  }

  /** The back-to-top button shows strictly beyond 500 px. */
  predicate ScrollTopVisible(scrollY: int) {
    scrollY > ScrollTopThreshold
  }

  /** The two thresholds are strict and independent: one offset can compact the
      navbar without showing the button, and neither marker is set at exactly its threshold. */
  lemma ThresholdsIndependent(scrollY: int)
    ensures ScrollTopVisible(scrollY) ==> NavbarScrolled(scrollY)
    ensures ScrollThreshold < scrollY <= ScrollTopThreshold ==> NavbarScrolled(scrollY) && !ScrollTopVisible(scrollY)
    ensures !NavbarScrolled(ScrollThreshold) && !ScrollTopVisible(ScrollTopThreshold)
  {
  }

  /** The markers the page shows for a given offset. */
  datatype ScrollSnapshot = ScrollSnapshot(navbarScrolled: bool, activeSection: string, scrollTopVisible: bool)

  function Snapshot(sections: seq<Section>, scrollY: int): (s: ScrollSnapshot)
    ensures s.navbarScrolled <==> scrollY > ScrollThreshold
    ensures s.scrollTopVisible <==> scrollY > ScrollTopThreshold
    ensures s.activeSection == ActiveSection(sections, scrollY)
    ensures NoneCoversAfter(sections, -1, scrollY) ==> s.activeSection == ""
  {
    ActiveSectionIsLastCovering(sections, scrollY);
    ScrollSnapshot(NavbarScrolled(scrollY), ActiveSection(sections, scrollY), ScrollTopVisible(scrollY))
  }

  /** Scrolling to 0, 150 and 600 px: the navbar is compacted at 150 and 600 but not at 0. */
  lemma NavbarScenario(sections: seq<Section>)
    ensures !Snapshot(sections, 0).navbarScrolled
    ensures Snapshot(sections, 150).navbarScrolled && Snapshot(sections, 600).navbarScrolled
  {
  }

  /** Scrolling to 0, 150 and 600 px: the back-to-top button shows at 600 only. */
  lemma ScrollTopScenario(sections: seq<Section>)
    ensures !Snapshot(sections, 0).scrollTopVisible && !Snapshot(sections, 150).scrollTopVisible
    ensures Snapshot(sections, 600).scrollTopVisible
  {
  }

  /** The page chrome driven by the window's scroll listeners. */
  class Chrome {
    const sections: seq<Section>
    const hrefs: array<string>
    const active: array<bool>
    const throttle: RateLimit.Throttle<int>
    var navbarScrolled: bool
    var scrollTopVisible: bool

    ghost predicate Valid()
      reads this
    {
      hrefs.Length == active.Length
    }

    /** The markers the page currently shows. */
    function Shown(): (s: (bool, seq<bool>, bool))
      reads this, active
    {
      (navbarScrolled, active[..], scrollTopVisible)
    }

    constructor (sections: seq<Section>, hrefs: array<string>)
      ensures Valid() && fresh(active) && fresh(throttle)
      ensures this.sections == sections && this.hrefs == hrefs
      ensures !navbarScrolled && !scrollTopVisible && forall k :: 0 <= k < active.Length ==> !active[k]
      ensures throttle.limit == ScrollThrottleLimit && !throttle.inThrottle && throttle.runs == []
    {
      this.sections := sections;
      this.hrefs := hrefs;
      active := new bool[hrefs.Length](_ => false);
      throttle := new RateLimit.Throttle(ScrollThrottleLimit);
      navbarScrolled, scrollTopVisible := false, false;
    }

    /** One scroll event, dispatched to the three listeners in registration order:
        the throttled update, the navbar listener (which updates again, unthrottled),
        and the back-to-top listener. Whatever the throttle decides, the markers end
        up as the snapshot of this offset. */
    method OnScroll(scrollY: int)
      requires Valid()
      modifies this, active, throttle
      ensures Valid()
      ensures navbarScrolled == Snapshot(sections, scrollY).navbarScrolled
      ensures scrollTopVisible == Snapshot(sections, scrollY).scrollTopVisible
      ensures active[..] == Marks(hrefs[..], Snapshot(sections, scrollY).activeSection)
      ensures throttle.inThrottle
      ensures throttle.runs == old(throttle.runs) + (if old(throttle.inThrottle) then [] else [scrollY])
    {
      var ran, _ := throttle.Call(scrollY);
      if ran {
        UpdateActiveNavLink(sections, scrollY, hrefs, active);
      }
      if scrollY > ScrollThreshold {
        navbarScrolled := true;
      } else {
        navbarScrolled := false;
      }
      UpdateActiveNavLink(sections, scrollY, hrefs, active);
      if scrollY > ScrollTopThreshold {
        scrollTopVisible := true;
      } else {
        scrollTopVisible := false;
      }
    }

    /** The throttle's timer expires and clears its flag; no marker changes. */
    method OnThrottleTimer()
      requires Valid() && throttle.inThrottle
      modifies throttle
      ensures Valid() && !throttle.inThrottle && throttle.runs == old(throttle.runs)
      ensures Shown() == old(Shown())
    {
      throttle.Expire();
    }
  }
}
