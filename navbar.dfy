/** components/Navbar.tsx: the throttled scroll handler that sets the `scrolled` flag and picks
    the active section, and the links that set the active section on click. */
module Navbar {
  import opened Wrappers

  /** `window.scrollY > 20` */
  predicate IsScrolled(scrollY: int) {
    scrollY > 20
  }

  /** `window.scrollY + 100`: the point of the page the active section must contain. */
  function Probe(scrollY: int): int {
    scrollY + 100
  }

  /** The layout of a section element: `offsetTop` and `offsetHeight`. */
  datatype Box = Box(offsetTop: int, offsetHeight: int)

  /** `scrollPosition >= offsetTop && scrollPosition < offsetTop + offsetHeight` */
  predicate Contains(b: Box, probe: int) {
    b.offsetTop <= probe < b.offsetTop + b.offsetHeight
  }

  /** A navigation key and the id of the section element it stands for. */
  datatype Entry = Entry(key: string, id: string)

  /** `Object.entries(sectionMap)`, in insertion order. */
  const SectionMap: seq<Entry> := [
    Entry("home", "home"),
    Entry("projects", "portfolio"),
    Entry("skills", "ia-automacao"),
    Entry("about", "sobre")
  ]

  /** The keys the four desktop links set when clicked. */
  const LinkKeys: seq<string> := ["home", "projects", "skills", "about"]

  /** `document.getElementById(e.id)` found an element whose box contains the probe; the page's
      elements are a map from id to box, an id absent from it has no element. */
  predicate Hits(e: Entry, elements: map<string, Box>, probe: int) {
    e.id in elements && Contains(elements[e.id], probe)
  }

  /** The key of the first entry that hits, if any. */
  function FirstContaining(entries: seq<Entry>, elements: map<string, Box>, probe: int): Option<string>
  {
    if entries == [] then None
    else if Hits(entries[0], elements, probe) then Some(entries[0].key)
    else FirstContaining(entries[1..], elements, probe)
  }

  /** A found key belongs to an entry that hits, and no earlier entry hits. */
  lemma {:induction false} FirstContainingFound(entries: seq<Entry>, elements: map<string, Box>, probe: int)
    returns (i: nat)
    requires FirstContaining(entries, elements, probe).Some?
    ensures i < |entries| && Hits(entries[i], elements, probe)
    ensures entries[i].key == FirstContaining(entries, elements, probe).value
    ensures forall j :: 0 <= j < i ==> !Hits(entries[j], elements, probe)
  {
    if Hits(entries[0], elements, probe) {
      i := 0;
    } else {
      var i' := FirstContainingFound(entries[1..], elements, probe);
      i := i' + 1;
    }
  }

  /** The entry picked is the first that hits: whenever entry `i` hits and none before it
      does, its key is the answer. */
  lemma {:induction false} FirstContainingPicks(entries: seq<Entry>, elements: map<string, Box>, probe: int, i: nat)
    requires i < |entries| && Hits(entries[i], elements, probe)
    requires forall j :: 0 <= j < i ==> !Hits(entries[j], elements, probe)
    ensures FirstContaining(entries, elements, probe) == Some(entries[i].key)
  {
    if i > 0 {
      assert !Hits(entries[0], elements, probe);
      FirstContainingPicks(entries[1..], elements, probe, i - 1);
    }
  }

  /** Nothing is found exactly when no entry hits. */
  lemma {:induction false} FirstContainingNone(entries: seq<Entry>, elements: map<string, Box>, probe: int)
    ensures FirstContaining(entries, elements, probe).None?
      <==> forall j :: 0 <= j < |entries| ==> !Hits(entries[j], elements, probe)
  {
    if entries != [] {
      FirstContainingNone(entries[1..], elements, probe);
      assert forall j :: 1 <= j < |entries| ==> entries[j] == entries[1..][j - 1];
    }
  }

  /** The active section after a frame: the first hit, or the current one when none hits. */
  function ActiveAfter(elements: map<string, Box>, probe: int, current: string): string {
    match FirstContaining(SectionMap, elements, probe)
    case Some(key) => key
    case None => current
  }

  /** The `for … of` loop over the section map, leaving it at the first hit with `break`. */
  method SelectActiveSection(elements: map<string, Box>, probe: int, current: string)
    returns (active: string)
    ensures active == ActiveAfter(elements, probe, current)
  {
    active := current;
    var i := 0;
    while i < |SectionMap|
      invariant 0 <= i <= |SectionMap|
      invariant active == current
      invariant FirstContaining(SectionMap, elements, probe) == FirstContaining(SectionMap[i..], elements, probe)
    {
      var entry := SectionMap[i];
      if entry.id in elements {
        var box := elements[entry.id];
        if probe >= box.offsetTop && probe < box.offsetTop + box.offsetHeight {
          active := entry.key;
          break;
        }
      }
      assert SectionMap[i..][1..] == SectionMap[i + 1..];
      i := i + 1;
    }
  }

  /** A section with no element on the page is never chosen. */
  lemma MissingSectionNeverActive(elements: map<string, Box>, probe: int, current: string, k: nat)
    requires k < |SectionMap| && SectionMap[k].id !in elements && SectionMap[k].key != current
    ensures ActiveAfter(elements, probe, current) != SectionMap[k].key
  {
    if FirstContaining(SectionMap, elements, probe).Some? {
      var i := FirstContainingFound(SectionMap, elements, probe);
      assert i != k;
      assert SectionMap[i].key != SectionMap[k].key;
    }
  }

  /** Every key a frame can choose is one of the links' keys, so exactly one link is shown as
      active whenever the active section started as one of them. */
  lemma ActiveIsALink(elements: map<string, Box>, probe: int, current: string)
    requires current in LinkKeys
    ensures ActiveAfter(elements, probe, current) in LinkKeys
  {
    if FirstContaining(SectionMap, elements, probe).Some? {
      var i := FirstContainingFound(SectionMap, elements, probe);
      assert SectionMap[i].key == LinkKeys[i];
    }
  }

  /** The navigation bar's state. `pendingFrames` counts the `requestAnimationFrame` callbacks
      the handler has scheduled and the browser has not yet run. */
  class NavbarState {
    var scrolled: bool
    var activeSection: string
    var ticking: bool
    var pendingFrames: nat

    /** The throttle: at most one frame is pending, and `ticking` says whether one is. */
    predicate Valid()
      reads this
    {
      pendingFrames <= 1 && (ticking <==> pendingFrames == 1)
    }

    /** The first render: not scrolled, on `home`, no frame scheduled. */
    constructor()
      ensures Valid()
      ensures !scrolled && activeSection == "home" && !ticking && pendingFrames == 0
    {
      scrolled := false;
      activeSection := "home";
      ticking := false;
      pendingFrames := 0;
    }

    /** `handleScroll`, run on every scroll event and once when the effect mounts: it schedules
        a frame only when none is pending. */
    method HandleScroll()
      requires Valid()
      modifies this
      ensures Valid()
      ensures ticking && pendingFrames == 1
      ensures old(ticking) ==> pendingFrames == old(pendingFrames)
      ensures scrolled == old(scrolled) && activeSection == old(activeSection)
    {
      if !ticking {
        pendingFrames := pendingFrames + 1;
        ticking := true;
      }
    }

    /** The frame callback, run by the browser for a scheduled frame with the scroll offset
        and the page's section boxes of that moment. */
    method RunFrame(scrollY: int, elements: map<string, Box>)
      requires Valid() && pendingFrames > 0
      modifies this
      ensures Valid()
      ensures pendingFrames == 0 && !ticking
      ensures scrolled == IsScrolled(scrollY)
      ensures activeSection == ActiveAfter(elements, Probe(scrollY), old(activeSection))
    {
      scrolled := scrollY > 20;
      var scrollPosition := scrollY + 100;
      activeSection := SelectActiveSection(elements, scrollPosition, activeSection);
      ticking := false;
      pendingFrames := pendingFrames - 1;
    }

    /** A desktop link's `onClick`: the section becomes active at once. */
    method NavClick(k: nat)
      requires k < |LinkKeys|
      modifies this
      ensures activeSection == LinkKeys[k]
      ensures scrolled == old(scrolled) && ticking == old(ticking) && pendingFrames == old(pendingFrames)
    {
      activeSection := LinkKeys[k];
    }
  }
}
