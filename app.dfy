/**
  The scroll-reveal controller of src/App.tsx and the language toggle of its
  navigation bar.

  The controller runs over the `.will-fade` elements of the page. An element
  is revealed by adding the `is-visible` class; the page markup already gives
  some elements that class. The intersection observer keeps a watch list;
  scroll and resize listeners and one 600 ms settle timer run the same
  sweep. Element positions are whatever `getBoundingClientRect` reports at
  the moment an operation runs, so each operation takes them as a parameter.
 */
module App {

  import opened Wrappers

  /** The identity of a `.will-fade` element. */
  type ElementId = nat

  /** The vertical extent of an element's bounding box, relative to the viewport. */
  datatype Box = Box(top: real, bottom: real)

  /** One entry delivered to the observer callback. */
  datatype Entry = Entry(target: ElementId, isIntersecting: bool)

  /** At least partly inside a viewport of height `innerHeight`. Both bounds are strict. */
  function InView(rect: Box, innerHeight: real): (inView: bool)
    // out of view exactly when the box starts at or below the viewport's lower edge,
    // or ends at or above its upper edge
    ensures !inView <==> rect.top >= innerHeight || rect.bottom <= 0.0
    // both bounds are strict: a box touching an edge from outside is not in view
    ensures rect.top == innerHeight ==> !inView
    ensures rect.bottom == 0.0 ==> !inView
  {
    rect.top < innerHeight && rect.bottom > 0.0
  }

  /** The elements of `elements` that are in view. */
  function InViewSet(elements: seq<ElementId>, rect: ElementId -> Box, innerHeight: real): (s: set<ElementId>)
    ensures forall e :: e in s <==> e in elements && InView(rect(e), innerHeight)
  {
    set e | e in elements && InView(rect(e), innerHeight)
  }

  /** The elements one sweep reveals: in view and not yet visible. */
  function Revealable(elements: seq<ElementId>, visible: set<ElementId>, rect: ElementId -> Box,
                      innerHeight: real): (s: set<ElementId>)
    ensures forall e :: e in s <==> e in elements && e !in visible && InView(rect(e), innerHeight)
  {
    set e | e in elements && e !in visible && InView(rect(e), innerHeight)
  }

  /** The targets of the intersecting entries. */
  function Intersecting(entries: seq<Entry>): (s: set<ElementId>)
    ensures forall e :: e in s <==> exists i :: 0 <= i < |entries| && entries[i].isIntersecting && entries[i].target == e
  {
    set i | 0 <= i < |entries| && entries[i].isIntersecting :: entries[i].target
  }

  /** After a sweep every element in view is visible, so a second sweep over the same layout reveals nothing. */
  lemma SweepIsIdempotent(elements: seq<ElementId>, visible: set<ElementId>, rect: ElementId -> Box, innerHeight: real)
    ensures InViewSet(elements, rect, innerHeight) <= visible + Revealable(elements, visible, rect, innerHeight)
    ensures Revealable(elements, visible + Revealable(elements, visible, rect, innerHeight), rect, innerHeight) == {}
  {
  }

  class RevealController {
    /** The `.will-fade` elements found at the last initialisation, in document order. */
    var elements: seq<ElementId>
    /** The elements carrying `is-visible`. */
    var visible: set<ElementId>
    /** The intersection observer's watch list. */
    var observed: set<ElementId>
    /** An observer exists and has not been disconnected. */
    var connected: bool
    /** The scroll and resize listeners are attached. */
    var listening: bool
    /** The 600 ms settle timer has been set and neither fired nor been cleared. */
    var timerPending: bool

    ghost predicate Valid()
      reads this
    {
      && (forall e :: e in observed ==> e in elements)
      && (observed != {} ==> connected)
      && (listening ==> connected)
      && (timerPending ==> listening)
    }

    /** Nothing is attached: no observer, no listener, no timer. */
    predicate Idle()
      reads this
    {
      observed == {} && !connected && !listening && !timerPending
    }

    /** The page before the effect first runs: `markedVisible` carry `is-visible` from the markup. */
    constructor (markedVisible: set<ElementId>)
      ensures Valid() && Idle()
      ensures visible == markedVisible && elements == []
    {
      elements := [];
      visible := markedVisible;
      observed := {};
      connected, listening, timerPending := false, false, false;
    }

    /** `revealIfInViewport(el)`: reveal the element if it is in view, and observe it either way. */
    method RevealIfInViewport(el: ElementId, rect: Box, innerHeight: real)
      requires Valid() && connected && el in elements
      modifies this`visible, this`observed
      ensures Valid()
      ensures visible == old(visible) + (if InView(rect, innerHeight) then {el} else {})
      ensures observed == old(observed) + {el}
    {
      if InView(rect, innerHeight) {
        visible := visible + {el};
      }
      observed := observed + {el};
    }

    /** The effect body. `root` is the container (None when the ref is not attached) with its
        `.will-fade` elements; `hasObserver` tells whether `IntersectionObserver` exists. */
    method Init(root: Option<seq<ElementId>>, hasObserver: bool, rect: ElementId -> Box, innerHeight: real)
      requires Valid() && Idle()
      modifies this
      ensures Valid()
      ensures root.None? ==> visible == old(visible) && elements == old(elements) && Idle()
      ensures root.Some? ==> elements == root.value
      ensures root.Some? && !hasObserver ==>
        visible == old(visible) + (set e | e in root.value) && Idle()
      ensures root.Some? && hasObserver ==>
        && visible == old(visible) + InViewSet(root.value, rect, innerHeight)
        && observed == (set e | e in root.value)
        && connected && listening && timerPending
    {
      if root.None? {
        return;
      }
      var els := root.value;
      elements := els;
      if !hasObserver {
        for i := 0 to |els|
          invariant Idle() && elements == els
          invariant visible == old(visible) + (set e | e in els[..i])
        {
          assert els[..i + 1] == els[..i] + [els[i]];
          visible := visible + {els[i]};
        }
        assert els[..|els|] == els;
        return;
      }
      connected := true;
      for i := 0 to |els|
        invariant Valid() && connected && elements == els
        invariant visible == old(visible) + InViewSet(els[..i], rect, innerHeight)
        invariant observed == (set e | e in els[..i])
      {
        assert els[..i + 1] == els[..i] + [els[i]];
        RevealIfInViewport(els[i], rect(els[i]), innerHeight);
      }
      assert els[..|els|] == els;
      listening := true;
      timerPending := true;
    }

    /** The observer callback: every intersecting entry reveals its target and unobserves it. */
    method OnIntersection(entries: seq<Entry>)
      requires Valid() && connected
      modifies this`visible, this`observed
      ensures Valid()
      ensures visible == old(visible) + Intersecting(entries)
      ensures observed == old(observed) - Intersecting(entries)
    {
      for i := 0 to |entries|
        invariant Valid() && connected
        invariant visible == old(visible) + Intersecting(entries[..i])
        invariant observed == old(observed) - Intersecting(entries[..i])
      {
        assert entries[..i + 1] == entries[..i] + [entries[i]];
        assert Intersecting(entries[..i + 1]) ==
          Intersecting(entries[..i]) + (if entries[i].isIntersecting then {entries[i].target} else {}) by {
          var prefix := entries[..i + 1];
          assert forall j :: 0 <= j < i ==> prefix[j] == entries[..i][j];
        }
        var entry := entries[i];
        if entry.isIntersecting {
          visible := visible + {entry.target};
          observed := observed - {entry.target};
        }
      }
      assert entries[..|entries|] == entries;
    }

    /** `checkAll`, run by the scroll and resize listeners: reveal and unobserve every element that is
        in view and not yet visible; already visible elements are skipped, out-of-view ones are left
        as they are. */
    method CheckAll(rect: ElementId -> Box, innerHeight: real)
      requires Valid() && listening
      modifies this`visible, this`observed
      ensures Valid()
      ensures visible == old(visible) + Revealable(elements, old(visible), rect, innerHeight)
      ensures observed == old(observed) - Revealable(elements, old(visible), rect, innerHeight)
    {
      for i := 0 to |elements|
        invariant Valid() && listening
        invariant visible == old(visible) + Revealable(elements[..i], old(visible), rect, innerHeight)
        invariant observed == old(observed) - Revealable(elements[..i], old(visible), rect, innerHeight)
      {
        assert elements[..i + 1] == elements[..i] + [elements[i]];
        var el := elements[i];
        if el in visible {
          continue;
        }
        var r := rect(el);
        if r.top < innerHeight && r.bottom > 0.0 {
          visible := visible + {el};
          observed := observed - {el};
        }
      }
      assert elements[..|elements|] == elements;
    }

    /** The settle timer fires once and runs the sweep. */
    method OnSettleTimer(rect: ElementId -> Box, innerHeight: real)
      requires Valid() && timerPending
      modifies this`visible, this`observed, this`timerPending
      ensures Valid() && !timerPending
      ensures visible == old(visible) + Revealable(elements, old(visible), rect, innerHeight)
      ensures observed == old(observed) - Revealable(elements, old(visible), rect, innerHeight)
    {
      timerPending := false;
      CheckAll(rect, innerHeight);
    }

    /** The effect cleanup: listeners removed, timer cleared, observer disconnected; visibility kept. */
    method Teardown()
      requires Valid()
      modifies this`observed, this`connected, this`listening, this`timerPending
      ensures Valid() && Idle()
    {
      listening := false;
      timerPending := false;
      connected := false;
      observed := {};
    }

    /** A language change: the previous run's cleanup, then the effect again. */
    method OnLanguageChange(root: Option<seq<ElementId>>, hasObserver: bool, rect: ElementId -> Box, innerHeight: real)
      requires Valid()
      modifies this
      ensures Valid()
      ensures old(visible) <= visible
      ensures root.None? ==> elements == old(elements) && visible == old(visible) && Idle()
      ensures root.Some? ==> elements == root.value
      ensures root.Some? && !hasObserver ==> visible == old(visible) + (set e | e in root.value) && Idle()
      ensures root.Some? && hasObserver ==>
        && visible == old(visible) + InViewSet(root.value, rect, innerHeight)
        && observed == (set e | e in root.value)
        && connected && listening && timerPending
    {
      Teardown();
      Init(root, hasObserver, rect, innerHeight);
    }
  }

  /** Three elements, the first above the fold: a scroll brings the second into view, a late
      layout change brings the third in, half a pixel inside the bottom edge, before the settle
      timer fires. */
  method ScrollScenario()
  {
    var page := new RevealController({});
    var els := [1, 2, 3];
    var atLoad := (e: ElementId) => if e == 1 then Box(0.0, 100.0) else if e == 2 then Box(900.0, 1000.0) else Box(1900.0, 2000.0);
    page.Init(Some(els), true, atLoad, 800.0);
    assert page.visible == {1} by {
      assert InView(atLoad(1), 800.0) && !InView(atLoad(2), 800.0) && !InView(atLoad(3), 800.0);
      assert InViewSet(els, atLoad, 800.0) == {1};
    }
    var scrolled := (e: ElementId) => if e == 1 then Box(-400.0, -300.0) else if e == 2 then Box(500.0, 600.0) else Box(1500.0, 1600.0);
    page.CheckAll(scrolled, 800.0);
    assert page.visible == {1, 2} by {
      assert InView(scrolled(2), 800.0) && !InView(scrolled(3), 800.0);
      assert Revealable(els, {1}, scrolled, 800.0) == {2};
    }
    var settled := (e: ElementId) => if e == 1 then Box(-400.0, -300.0) else if e == 2 then Box(500.0, 600.0) else Box(799.5, 899.5);
    page.OnSettleTimer(settled, 800.0);
    assert page.visible == {1, 2, 3} by {
      assert InView(settled(3), 800.0);
      assert Revealable(els, {1, 2}, settled, 800.0) == {3};
    }
    // The first element was revealed during initialisation; only the observer callback unobserves it.
    assert page.observed == {1} && page.listening && !page.timerPending;
    var entries := [Entry(1, true), Entry(2, false)];
    page.OnIntersection(entries);
    assert page.observed == {} && page.visible == {1, 2, 3} by {
      assert entries[0].isIntersecting && !entries[1].isIntersecting;
      assert Intersecting(entries) == {1};
    }
    page.Teardown();
    assert page.visible == {1, 2, 3} && !page.listening;
  }

  // ---------------------------------------------------------------------------
  // The language toggle
  // ---------------------------------------------------------------------------

  const English := "en"
  const TraditionalChinese := "zh-TW"

  /** The language the toggle button switches to. */
  function ToggleLanguage(language: string): (next: string)
    ensures next == TraditionalChinese <==> language == English
    ensures next == English <==> language != English
  {
    if language == English then TraditionalChinese else English
  }

  /** The caption of the toggle button. */
  function ToggleLabel(language: string): (caption: string)
    ensures caption == "繁體中文" <==> language == English
    ensures caption == "English" <==> language != English
  {
    if language == English then "繁體中文" else "English"
  }

  /** The name of a supported language, written in that language. */
  function LanguageName(language: string): string
    requires language == English || language == TraditionalChinese
  {
    if language == English then "English" else "繁體中文"
  }

  /** The button's caption names the language a click switches to. */
  lemma LabelNamesNextLanguage(language: string)
    ensures ToggleLabel(language) == LanguageName(ToggleLanguage(language))
  {
  }

  /** From either supported language two clicks come back to it; after one click the toggle alternates
      between the two languages. */
  lemma ToggleTwice(language: string)
    ensures language == English || language == TraditionalChinese ==> ToggleLanguage(ToggleLanguage(language)) == language
    ensures ToggleLanguage(ToggleLanguage(ToggleLanguage(language))) == ToggleLanguage(language)
  {
  }
}
