/** The gallery lightbox of js/main.js (`initLightbox`): a full-screen overlay
    that shows one gallery item at a time, with wrap-around navigation,
    keyboard control and a touch swipe with a dead zone.

    The closure state of the source (`currentIndex`, `touchStartX`,
    `touchEndX`, the `active` class of the overlay, the overflow style of the
    body and the text and attributes the overlay renders) becomes the fields
    of the class `Lightbox`. The decisions taken by the handlers (the index
    arithmetic, which key does what, when a swipe counts) are pure functions
    specified and related by lemmas. */
module Lightbox {
  import opened Wrappers
  import Decimal

  /** One `.gallery-item`: its image's `src` and `alt`, and the text of its
      optional `.photo-title` and `.photo-location` children. */
  datatype GalleryItem = GalleryItem(src: string, alt: string, title: Option<string>, location: Option<string>)

  /** `Math.abs` on a whole number. */
  function Abs(x: int): (r: int)
    ensures r >= 0 && (r == x || r == -x)
  {
    if x < 0 then -x else x
  }

  /** JavaScript's `a % b` for a positive `b`: the remainder of the division
      truncated towards zero, whose sign is the sign of `a` (Dafny's `%` is
      Euclidean, so the two differ for a negative `a`). */
  function JsRem(a: int, b: int): (r: int)
    requires b > 0
    ensures -b < r < b
    ensures a >= 0 ==> r >= 0
    ensures a <= 0 ==> r <= 0
  {
    if a >= 0 then a % b else -((-a) % b)
  }

  /** Below twice the divisor, the remainder is at most one subtraction. */
  lemma RemBelowTwice(a: int, n: int)
    requires n > 0 && 0 <= a < 2 * n
    ensures JsRem(a, n) == if a < n then a else a - n
  {
    if a >= n {
      assert a == 1 * n + (a - n);
    }
  }

  /** `showNext`: `(currentIndex + 1) % totalImages`. */
  function NextIndex(i: int, n: int): (r: int)
    requires 0 <= i < n
    ensures 0 <= r < n
    ensures r == if i == n - 1 then 0 else i + 1
  {
    RemBelowTwice(i + 1, n);
    JsRem(i + 1, n)
  }

  /** `showPrev`: `(currentIndex - 1 + totalImages) % totalImages`. */
  function PrevIndex(i: int, n: int): (r: int)
    requires 0 <= i < n
    ensures 0 <= r < n
    ensures r == if i == 0 then n - 1 else i - 1
  {
    RemBelowTwice(i - 1 + n, n);
    JsRem(i - 1 + n, n)
  }

  /** Going back after going forward, or forward after going back, returns
      to the index one started from. */
  lemma NextPrevInverse(i: int, n: int)
    requires 0 <= i < n
    ensures PrevIndex(NextIndex(i, n), n) == i
    ensures NextIndex(PrevIndex(i, n), n) == i
  {
  }

  /** The index reached by `k` calls of `showNext` from `i`. */
  function NextTimes(i: int, n: int, k: nat): (r: int)
    requires 0 <= i < n
    ensures 0 <= r < n
  {
    if k == 0 then i else NextIndex(NextTimes(i, n, k - 1), n)
  }

  lemma {:induction false} NextTimesAdd(i: int, n: int, a: nat, b: nat)
    requires 0 <= i < n
    ensures NextTimes(i, n, a + b) == NextTimes(NextTimes(i, n, a), n, b)
  {
    if b > 0 {
      NextTimesAdd(i, n, a, b - 1);
    }
  }

  /** Below the last index, `k` steps forward add `k`. */
  lemma {:induction false} NextTimesClimb(i: int, n: int, k: nat)
    requires 0 <= i && i + k < n
    ensures NextTimes(i, n, k) == i + k
  {
    if k > 0 {
      NextTimesClimb(i, n, k - 1);
    }
  }

  /** From `i`, `totalImages - i` calls of `showNext` reach the first image. */
  lemma NextWraps(i: int, n: int)
    requires 0 <= i < n
    ensures NextTimes(i, n, n - i) == 0
  {
    NextTimesClimb(i, n, n - 1 - i);
    NextTimesAdd(i, n, n - 1 - i, 1);
  }

  /** `totalImages` calls of `showNext` come back to the start. */
  lemma NextCycles(i: int, n: int)
    requires 0 <= i < n
    ensures NextTimes(i, n, n) == i
  {
    NextWraps(i, n);
    NextTimesClimb(0, n, i);
    NextTimesAdd(i, n, n - i, i);
  }

  /** The counter text `${currentIndex + 1} / ${totalImages}`, for a
      zero-based index. */
  function Counter(i: nat, n: nat): string
  {
    Decimal.Show(i + 1) + " / " + Decimal.Show(n)
  }

  /** Splitting `a + " / " + b` at its first space recovers the two numerals. */
  lemma {:induction false} SplitAtSlash(a: string, b: string, c: string, d: string)
    requires Decimal.AllDigits(a) && Decimal.AllDigits(c)
    requires a + " / " + b == c + " / " + d
    ensures a == c && b == d
  {
    var s := a + " / " + b;
    assert s[|a|] == ' ';
    assert s[|c|] == ' ';
    assert a == s[..|a|] == c;
    assert b == s[|a| + 3..] == d;
  }

  /** Different positions or totals never share a counter text, so the
      counter determines both the position shown and the total. */
  lemma CounterInjective(i: nat, n: nat, j: nat, m: nat)
    requires Counter(i, n) == Counter(j, m)
    ensures i == j && n == m
  {
    SplitAtSlash(Decimal.Show(i + 1), Decimal.Show(n), Decimal.Show(j + 1), Decimal.Show(m));
    Decimal.ShowInjective(i + 1, j + 1);
    Decimal.ShowInjective(n, m);
  }

  /** The two wrap-around situations with five items: the counter reads
      "1 / 5" after wrapping forward and "5 / 5" after wrapping back. */
  lemma FiveItemCounters()
    ensures NextIndex(4, 5) == 0 && Counter(NextIndex(4, 5), 5) == "1 / 5"
    ensures PrevIndex(0, 5) == 4 && Counter(PrevIndex(0, 5), 5) == "5 / 5"
  {
  }

  /** What a handler does to the lightbox. */
  datatype Nav = Ignore | Dismiss | Back | Forward

  /** The keydown handler: nothing unless the lightbox is active; then
      Escape closes, ArrowLeft goes back, ArrowRight goes forward and every
      other key is ignored. */
  function KeyNav(active: bool, key: string): (a: Nav)
    ensures !active ==> a == Ignore
    ensures active ==> (a == Dismiss <==> key == "Escape")
    ensures active ==> (a == Back <==> key == "ArrowLeft")
    ensures active ==> (a == Forward <==> key == "ArrowRight")
  {
    if !active then Ignore
    else if key == "Escape" then Dismiss
    else if key == "ArrowLeft" then Back
    else if key == "ArrowRight" then Forward
    else Ignore
  }

  /** `threshold` in `handleSwipe`, in pixels. */
  const SwipeThreshold := 50

  /** `handleSwipe`: a swipe longer than the threshold to the left goes
      forward, one to the right goes back, and anything up to and including
      the threshold does nothing. */
  function SwipeNav(startX: int, endX: int): (a: Nav)
    ensures a != Dismiss
    ensures a == Forward <==> startX - endX > SwipeThreshold
    ensures a == Back <==> endX - startX > SwipeThreshold
    ensures a == Ignore <==> -SwipeThreshold <= startX - endX <= SwipeThreshold
  {
    var diff := startX - endX;
    if Abs(diff) > SwipeThreshold then
      if diff > 0 then Forward else Back
    else Ignore
  }

  lemma SwipeExamples()
    ensures SwipeNav(100, 40) == Forward
    ensures SwipeNav(100, 90) == Ignore
    ensures SwipeNav(100, 50) == Ignore && SwipeNav(50, 100) == Ignore
    ensures SwipeNav(40, 100) == Back
  {
  }

  class Lightbox {
    /** `galleryItems`, read once when the lightbox is set up. */
    const items: seq<GalleryItem>
    /** `totalImages`. */
    const total: int

    /** Whether the overlay carries the `active` class. */
    var active: bool
    var currentIndex: int
    var touchStartX: int
    var touchEndX: int

    /** What the overlay renders: the image's `src` and `alt` and the text
        of the title, location and counter elements. */
    var src: string
    var alt: string
    var title: string
    var location: string
    var counter: string
    /** `document.body.style.overflow`. */
    var bodyOverflow: string

    ghost predicate Valid()
      reads this
    {
      total == |items| && 0 < total && 0 <= currentIndex < total
    }

    /** The overlay renders item `i` (`updateLightboxContent`): a missing
        title or location renders as the empty string. */
    ghost predicate Shows(i: int)
      reads this
      requires Valid() && 0 <= i < total
    {
      src == items[i].src && alt == items[i].alt
      && title == items[i].title.GetOr("") && location == items[i].location.GetOr("")
      && counter == Counter(i, total)
    }

    /** `initLightbox` with a non-empty gallery (with no gallery item it
        returns before binding any handler). The `active` class, the
        rendered fields and the body's overflow keep whatever the page had. */
    constructor (galleryItems: seq<GalleryItem>)
      requires |galleryItems| > 0
      ensures Valid() && items == galleryItems
      ensures currentIndex == 0 && touchStartX == 0 && touchEndX == 0
    {
      items := galleryItems;
      total := |galleryItems|;
      currentIndex := 0;
      touchStartX, touchEndX := 0, 0;
    }

    /** `updateLightboxContent`. */
    method Render()
      requires Valid()
      modifies this`src, this`alt, this`title, this`location, this`counter
      ensures Valid() && Shows(currentIndex)
    {
      var item := items[currentIndex];
      src := item.src;
      alt := item.alt;
      title := item.title.GetOr("");
      location := item.location.GetOr("");
      counter := Counter(currentIndex, total);
    }

    /** `openLightbox(index)`, bound to the click on gallery item `index`. */
    method Open(index: int)
      requires Valid() && 0 <= index < total
      modifies this`currentIndex, this`active, this`bodyOverflow
      modifies this`src, this`alt, this`title, this`location, this`counter
      ensures Valid() && currentIndex == index && Shows(index)
      ensures active && bodyOverflow == "hidden"
    {
      currentIndex := index;
      Render();
      active := true;
      bodyOverflow := "hidden";
    }

    /** `closeLightbox`. Its frame leaves the index and the rendered item
        as they were, and the new state does not depend on the old one, so
        closing twice is the same as closing once. */
    method Close()
      modifies this`active, this`bodyOverflow
      ensures !active && bodyOverflow == ""
    {
      active := false;
      bodyOverflow := "";
    }

    /** `showPrev`, also bound to the previous button. */
    method ShowPrev()
      requires Valid()
      modifies this`currentIndex, this`src, this`alt, this`title, this`location, this`counter
      ensures Valid() && currentIndex == PrevIndex(old(currentIndex), total) && Shows(currentIndex)
    {
      currentIndex := JsRem(currentIndex - 1 + total, total);
      Render();
    }

    /** `showNext`, also bound to the next button. */
    method ShowNext()
      requires Valid()
      modifies this`currentIndex, this`src, this`alt, this`title, this`location, this`counter
      ensures Valid() && currentIndex == NextIndex(old(currentIndex), total) && Shows(currentIndex)
    {
      currentIndex := JsRem(currentIndex + 1, total);
      Render();
    }

    /** Carries out the navigation a handler decided on. */
    method Apply(a: Nav)
      requires Valid()
      modifies this
      ensures Valid()
      ensures a == Ignore ==> unchanged(this)
      ensures a == Dismiss ==>
        !active && bodyOverflow == "" && currentIndex == old(currentIndex)
        && src == old(src) && alt == old(alt) && title == old(title)
        && location == old(location) && counter == old(counter)
      ensures (a == Back || a == Forward) ==> active == old(active) && bodyOverflow == old(bodyOverflow)
      ensures a == Back ==> currentIndex == PrevIndex(old(currentIndex), total) && Shows(currentIndex)
      ensures a == Forward ==> currentIndex == NextIndex(old(currentIndex), total) && Shows(currentIndex)
      ensures touchStartX == old(touchStartX) && touchEndX == old(touchEndX)
    {
      match a
      case Ignore =>
      case Dismiss => Close();
      case Back => ShowPrev();
      case Forward => ShowNext();
    }

    /** The click on the overlay itself (not on its content) closes it. */
    method BackgroundClick(targetIsOverlay: bool)
      modifies this`active, this`bodyOverflow
      ensures targetIsOverlay ==> !active && bodyOverflow == ""
      ensures !targetIsOverlay ==> active == old(active) && bodyOverflow == old(bodyOverflow)
    {
      if targetIsOverlay {
        Close();
      }
    }

    /** The document's keydown handler. */
    method KeyDown(key: string)
      requires Valid()
      modifies this
      ensures Valid()
      ensures !old(active) ==> unchanged(this)
      ensures KeyNav(old(active), key) == Ignore ==> unchanged(this)
      ensures KeyNav(old(active), key) == Dismiss ==>
        !active && bodyOverflow == "" && currentIndex == old(currentIndex)
        && src == old(src) && alt == old(alt) && title == old(title)
        && location == old(location) && counter == old(counter)
      ensures KeyNav(old(active), key) == Back ==>
        active && currentIndex == PrevIndex(old(currentIndex), total) && Shows(currentIndex)
      ensures KeyNav(old(active), key) == Forward ==>
        active && currentIndex == NextIndex(old(currentIndex), total) && Shows(currentIndex)
      ensures KeyNav(old(active), key) in {Back, Forward} ==> bodyOverflow == old(bodyOverflow)
      ensures touchStartX == old(touchStartX) && touchEndX == old(touchEndX)
    {
      Apply(KeyNav(active, key));
    }

    /** The touchstart handler records where the touch began. */
    method TouchStart(screenX: int)
      modifies this`touchStartX
      ensures touchStartX == screenX
    {
      touchStartX := screenX;
    }

    /** The touchend handler records where the touch ended and calls
        `handleSwipe`. */
    method TouchEnd(screenX: int)
      requires Valid()
      modifies this
      ensures Valid() && touchStartX == old(touchStartX) && touchEndX == screenX
      ensures active == old(active) && bodyOverflow == old(bodyOverflow)
      ensures SwipeNav(touchStartX, screenX) == Ignore ==>
        currentIndex == old(currentIndex) && src == old(src) && alt == old(alt) && title == old(title)
        && location == old(location) && counter == old(counter)
      ensures SwipeNav(touchStartX, screenX) == Back ==>
        currentIndex == PrevIndex(old(currentIndex), total) && Shows(currentIndex)
      ensures SwipeNav(touchStartX, screenX) == Forward ==>
        currentIndex == NextIndex(old(currentIndex), total) && Shows(currentIndex)
    {
      touchEndX := screenX;
      HandleSwipe();
    }

    /** `handleSwipe`: navigates by the recorded touch, whether or not the
        overlay is active (the source does not check). */
    method HandleSwipe()
      requires Valid()
      modifies this
      ensures Valid() && touchStartX == old(touchStartX) && touchEndX == old(touchEndX)
      ensures active == old(active) && bodyOverflow == old(bodyOverflow)
      ensures SwipeNav(touchStartX, touchEndX) == Ignore ==> unchanged(this)
      ensures SwipeNav(touchStartX, touchEndX) == Back ==>
        currentIndex == PrevIndex(old(currentIndex), total) && Shows(currentIndex)
      ensures SwipeNav(touchStartX, touchEndX) == Forward ==>
        currentIndex == NextIndex(old(currentIndex), total) && Shows(currentIndex)
    {
      Apply(SwipeNav(touchStartX, touchEndX));
    }
  }

  /** The five-item walk-through: opening the last item and going forward
      shows the first with "1 / 5"; opening the first and going back shows
      the last with "5 / 5"; Escape closes and a later arrow key is inert. */
  method FiveItemScenario(galleryItems: seq<GalleryItem>)
    requires |galleryItems| == 5
  {
    var lb := new Lightbox(galleryItems);
    lb.Open(4);
    assert lb.counter == "5 / 5" by { assert Counter(4, 5) == "5 / 5"; }
    lb.ShowNext();
    assert lb.currentIndex == 0 && lb.counter == "1 / 5" by { FiveItemCounters(); }
    lb.Open(0);
    lb.ShowPrev();
    assert lb.currentIndex == 4 && lb.counter == "5 / 5" by { FiveItemCounters(); }
    lb.KeyDown("Escape");
    assert !lb.active && lb.currentIndex == 4;
    lb.KeyDown("ArrowRight");
    assert !lb.active && lb.currentIndex == 4;
  }
}
