# Photography portfolio: lightbox, menus and publishing scripts in Dafny

This project models the three pieces of a static photography site that hold
logic of their own, and proves their properties.

- **The gallery lightbox** of `js/main.js` (`initLightbox`). It is a class
  `Lightbox.Lightbox` with the handlers' closure state as fields:
  `active`, `currentIndex`, the fixed `total`, the two touch coordinates, the
  rendered `src`, `alt`, `title`, `location` and `counter`, and the body's
  `bodyOverflow`. The index arithmetic (`NextIndex`, `PrevIndex`, JavaScript's
  truncating `%` as `JsRem`) and the decisions of the key and swipe handlers
  (`KeyNav`, `SwipeNav`) are pure functions. The counter text is built with a
  decimal rendering (`Decimal.Show`) that is proved injective.
- **The mobile menu** (`MobileMenu.Menu`) and **the theme toggle**
  (`ThemeToggle.Theme`) of the same file. Local storage is a
  `map<string, string>`.
- **scripts/add-lazy-loading.js.** A page is the sequence of pieces the
  script's regular expression cuts it into: `Text`, the matched tag
  `Img(src, alt)`, and the rewritten tag `LazyImg(src, alt)`. Source and alt
  values are non-empty and quote-free, as `[^"]+` demands. A page is read this
  way only when its `Text` pieces hold no match and no match spans two pieces.
  The rewritten tag keeps that reading: after its alt value the closing quote
  is followed by a space, not `>`, and its `lazy">` ending follows
  `loading="`, not ` alt="`. So `RewriteIdempotent` is about a second run of
  the script. `AddLazyLoading` is
  the counted left-to-right loop, proved equal to the specification function
  `LazyRewrite`. `ProcessDirectory` is the recursive directory walk over an
  abstract file tree.
- **scripts/update-descriptions.js.** A JavaScript `trim` is modelled over the
  ECMAScript white-space and line-terminator characters. The replace-first of
  the `collection-intro` paragraph and the loop over collection folders are
  modelled too.

`Lightbox.FiveItemScenario` walks through five items: it wraps forward from
the last item and back from the first, then checks that Escape closes the
lightbox and a later arrow key does nothing.

Two facts about the lightbox code that the model keeps:

- Only the keydown handler checks that the lightbox is open (js/main.js:247).
  The buttons, the click on the background and the swipe (js/main.js:234-243,
  266-286) act whether or not it is open.
- `closeLightbox` always writes both attributes, so it does not skip the work
  when the lightbox is already closed. A second call still leaves the same
  state.

## Model

| member | source | states |
|---|---|---|
| `Lightbox.JsRem` | js/main.js:220-226 | JavaScript's `%` for a positive divisor: the remainder is smaller than the divisor in size and has the sign of the dividend |
| `Lightbox.RemBelowTwice` | js/main.js:219-227 | below twice the count, JavaScript's `%` subtracts the count at most once |
| `Lightbox.NextIndex` | js/main.js:224-227 | `showNext` stays in `[0, total)`, goes from `i` to `i + 1`, and from the last index to 0 |
| `Lightbox.PrevIndex` | js/main.js:219-222 | `showPrev` stays in `[0, total)`, goes from `i` to `i - 1`, and from 0 to `total - 1` |
| `Lightbox.NextPrevInverse` | js/main.js:219-227 | `showPrev` after `showNext`, and `showNext` after `showPrev`, restore the index |
| `Lightbox.NextTimes` | js/main.js:224-227 | any number of `showNext` calls keeps the index in range |
| `Lightbox.NextTimesAdd` | js/main.js:224-227 | `a + b` steps forward are `a` steps and then `b` steps |
| `Lightbox.NextTimesClimb` | js/main.js:224-227 | below the last index, `k` steps forward add `k` |
| `Lightbox.NextWraps` | js/main.js:224-227 | from index `i`, `total - i` calls of `showNext` reach the first image |
| `Lightbox.NextCycles` | js/main.js:224-227 | `total` calls of `showNext` return to the starting index |
| `Lightbox.Counter` | js/main.js:216 | the counter text: the one-based position in decimal, `" / "`, the total in decimal |
| `Lightbox.SplitAtSlash` | js/main.js:216 | a `"a / b"` text with a numeral `a` determines both `a` and `b` |
| `Lightbox.CounterInjective` | js/main.js:216 | two counter texts are equal only for the same position and total |
| `Lightbox.FiveItemCounters` | js/main.js:216-227 | with 5 items, wrapping forward from 4 reads "1 / 5" and wrapping back from 0 reads "5 / 5" |
| `Lightbox.KeyNav` | js/main.js:246-260 | nothing while closed; while open, Escape closes, ArrowLeft goes back, ArrowRight goes forward, other keys are ignored |
| `Lightbox.Abs` | js/main.js:279 | `Math.abs`: the non-negative one of `x` and `-x` |
| `Lightbox.SwipeNav` | js/main.js:275-286 | forward exactly when `start - end > 50`, back exactly when `end - start > 50`, nothing exactly when the difference is within 50 either way |
| `Lightbox.SwipeExamples` | js/main.js:275-286 | a 60 px left swipe goes forward; 10 px and exactly 50 px do nothing; a 60 px right swipe goes back |
| `Lightbox.Lightbox.constructor` | js/main.js:177-192 | a non-empty gallery starts at index 0 with both touch coordinates 0; the `active` class and the rendered fields keep what the page had |
| `Lightbox.Lightbox.Shows` | js/main.js:206-217 | the overlay shows item `i`: its src and alt, its title and location or `''` when missing, and the counter for `i` |
| `Lightbox.Lightbox.Render` | js/main.js:206-217 | renders the current item's src, alt, title and location (missing ones as `''`) and the counter `"{i+1} / {total}"` |
| `Lightbox.Lightbox.Open` | js/main.js:194-199 | sets the index, renders that item with its counter, makes the lightbox active and sets overflow to `'hidden'` |
| `Lightbox.Lightbox.Close` | js/main.js:201-204 | clears `active`, sets overflow to `''`, changes nothing else (index and rendered item kept); so it is idempotent |
| `Lightbox.Lightbox.ShowPrev` | js/main.js:219-222 | the index becomes `PrevIndex` of the old one and that item is rendered |
| `Lightbox.Lightbox.ShowNext` | js/main.js:224-227 | the index becomes `NextIndex` of the old one and that item is rendered |
| `Lightbox.Lightbox.Apply` | js/main.js:249-259 | carries out a navigation decision: nothing, close, back or forward, with everything else kept |
| `Lightbox.Lightbox.BackgroundClick` | js/main.js:238-243 | a click on the overlay itself closes; a click on its content changes nothing |
| `Lightbox.Lightbox.KeyDown` | js/main.js:245-260 | while closed nothing changes; while open the state changes exactly as `KeyNav` decides: Escape closes and keeps the rendered item, the arrows move and render the item and keep the overflow, and no key touches the swipe coordinates |
| `Lightbox.Lightbox.TouchStart` | js/main.js:266-268 | records the start coordinate |
| `Lightbox.Lightbox.TouchEnd` | js/main.js:270-273 | records the end coordinate and navigates as `SwipeNav` decides |
| `Lightbox.Lightbox.HandleSwipe` | js/main.js:275-286 | navigates as `SwipeNav` decides; within the dead zone nothing changes |
| `Decimal.DigitChar` | js/main.js:216 | a digit below 10 renders as the matching character `'0'`..`'9'` |
| `Decimal.Show` | js/main.js:216 | a number renders as a non-empty string of digits with no leading zero |
| `Decimal.ValueShow` | js/main.js:216 | reading the rendered digits back gives the number |
| `Decimal.ShowInjective` | js/main.js:216 | different numbers render differently |
| `MobileMenu.Expanded` | js/main.js:80-88 | `aria-expanded` is `"true"` for an open menu and `"false"` for a closed one |
| `MobileMenu.Menu.constructor` | js/main.js:71-76 | setting up records whether an overlay exists and changes nothing on the page |
| `MobileMenu.Menu.OpenMenu` | js/main.js:78-84 | the menu is open, button, links and overlay agree, `aria-expanded` is `'true'`, overflow is `'hidden'` |
| `MobileMenu.Menu.CloseMenu` | js/main.js:86-92 | the menu is closed, all parts agree, `aria-expanded` is `'false'`, overflow is `''` |
| `MobileMenu.Menu.ToggleMenu` | js/main.js:94-102 | flips open/closed and leaves `aria-expanded` `'true'` exactly when open |
| `MobileMenu.Menu.KeyDown` | js/main.js:113-118 | Escape closes an open menu; otherwise nothing changes |
| `MobileMenu.Menu.Resize` | js/main.js:120-125 | a width over 768 closes an open menu; otherwise nothing changes |
| `ThemeToggle.StoredTheme` | js/main.js:58 | the saved value is `'light'` or `'dark'` |
| `ThemeToggle.SavedLight` | js/main.js:48-49 | only a saved value of exactly `'light'` turns the light theme on at start-up |
| `ThemeToggle.SaveThenLoad` | js/main.js:48-58 | saving a theme and reading it at the next start-up gives the same theme |
| `ThemeToggle.Theme.constructor` | js/main.js:47-51 | light mode starts on exactly when the body already had it or the saved value is exactly `'light'`; storage is only read |
| `ThemeToggle.Theme.Click` | js/main.js:53-58 | flips light mode and stores `'light'` exactly when light mode is now on, leaving other keys alone |
| `LazyLoading.Html` | scripts/add-lazy-loading.js:12-19 | the HTML of a piece: text as is, a tag with its src and alt, the lazy tag with ` loading="lazy"` before `>` |
| `LazyLoading.LazyTagExtendsTag` | scripts/add-lazy-loading.js:12-19 | a rewritten tag is the matched tag with ` loading="lazy"` put before `>`, source and alt kept |
| `LazyLoading.ImgCount` | scripts/add-lazy-loading.js:9-15 | the number of tags the expression matches, at most the number of pieces |
| `LazyLoading.ImgCountAppend` | scripts/add-lazy-loading.js:14 | the matched-tag count of two pieces of a page adds up |
| `LazyLoading.Counted` | scripts/add-lazy-loading.js:14 | `imageCount++` for each matched tag; text and already-lazy tags leave the counter alone |
| `LazyLoading.Replaced` | scripts/add-lazy-loading.js:13-20 | the callback's result: the tag unchanged while the counter is at most 2, the lazy tag with the same src and alt after that |
| `LazyLoading.Lazified` | scripts/add-lazy-loading.js:11-21 | the rewrite keeps the number of pieces |
| `LazyLoading.LazyRewrite` | scripts/add-lazy-loading.js:6-21 | the rewrite of a file keeps the number of pieces |
| `LazyLoading.Expected` | scripts/add-lazy-loading.js:9-20 | the reference value at a position: a matched tag with two or more matched tags before it becomes lazy, everything else is copied |
| `LazyLoading.LazifiedAt` | scripts/add-lazy-loading.js:13-20 | a matched tag becomes lazy exactly when two matched tags were counted before it; everything else is copied |
| `LazyLoading.LazyRewriteAt` | scripts/add-lazy-loading.js:8-21 | position by position: text copied, the first two tags kept, every later tag lazy with src and alt kept |
| `LazyLoading.FirstTwoStayEager` | scripts/add-lazy-loading.js:14-18 | the first two matched tags of a file are left byte-identical |
| `LazyLoading.LazifiedFew` | scripts/add-lazy-loading.js:14-18 | with no more than two matched tags left, the rewrite changes nothing |
| `LazyLoading.LazyTotal` | scripts/add-lazy-loading.js:14-24 | `max(0, count - 2)` |
| `LazyLoading.LazifiedCounts` | scripts/add-lazy-loading.js:14-19 | how many tags still match after a rewrite started at any counter value, and how many became lazy |
| `LazyLoading.RewriteCounts` | scripts/add-lazy-loading.js:14-24 | after the rewrite at most two tags match and exactly `max(0, count - 2)` lazy tags were added |
| `LazyLoading.RewriteIdempotent` | scripts/add-lazy-loading.js:12-19 | running the rewrite on its own output changes nothing |
| `LazyLoading.LoggedLazyCount` | scripts/add-lazy-loading.js:24 | the logged lazy count, as written, is negative exactly when the page has fewer than two images |
| `LazyLoading.LoggedLazyCountNegative` | scripts/add-lazy-loading.js:24 | a one-image page logs -1 lazy images while none is made lazy |
| `LazyLoading.AddLazyLoading` | scripts/add-lazy-loading.js:6-25 | the counted loop, with its counter starting at 0, produces `LazyRewrite` of the content, and the count of matched tags and of tags made lazy |
| `LazyLoading.RewriteFile` | scripts/add-lazy-loading.js:27-38 | `index.html` is rewritten with its own counter; any other file is left alone |
| `LazyLoading.RewriteFiles` | scripts/add-lazy-loading.js:34-35 | each file is rewritten on its own: only `index.html` changes |
| `LazyLoading.FilesOf` | scripts/add-lazy-loading.js:27-38 | the files of a tree in the order the walk visits them |
| `LazyLoading.Processed` | scripts/add-lazy-loading.js:27-38 | the tree after the walk: each `index.html` rewritten, other files kept, directories walked |
| `LazyLoading.ProcessedAll` | scripts/add-lazy-loading.js:27-38 | the walk keeps the number of entries of a directory |
| `LazyLoading.RewriteFilesAppend` | scripts/add-lazy-loading.js:30-37 | rewriting two runs of files is rewriting each run |
| `LazyLoading.WalkRewritesEachFile` | scripts/add-lazy-loading.js:27-38 | after the walk, every file of the tree, in visiting order, is that file rewritten on its own, so the counter restarts for every `index.html` |
| `LazyLoading.WalkRewritesEachFileAll` | scripts/add-lazy-loading.js:30-37 | the same for the entries of one directory |
| `LazyLoading.ProcessDirectory` | scripts/add-lazy-loading.js:27-38 | the recursive loop over the directory entries produces the walked tree |
| `Descriptions.IsJsSpace` | scripts/update-descriptions.js:19-24 | the characters `trim` removes and `\s` matches: ECMAScript's WhiteSpace (tab, vertical tab, form feed, space, no-break space, U+FEFF, the Unicode space separators) and LineTerminator (LF, CR, U+2028, U+2029) |
| `Descriptions.LeadingSpaces` | scripts/update-descriptions.js:19 | the length of the run of JavaScript white space that starts a string |
| `Descriptions.TrailingSpaces` | scripts/update-descriptions.js:19 | the length of the run of JavaScript white space that ends a string |
| `Descriptions.Trim` | scripts/update-descriptions.js:19 | `trim` gives the part of the string left after removing only white space at both ends; it starts and ends with no white space |
| `Descriptions.TrimIdempotent` | scripts/update-descriptions.js:19 | trimming twice is trimming once |
| `Descriptions.TrimAddsNothing` | scripts/update-descriptions.js:19 | every character of the trimmed text was in the original |
| `Descriptions.FindFrom` | scripts/update-descriptions.js:23-26 | the first position at or after a start where a pattern occurs, or none if it occurs nowhere after it |
| `Descriptions.FindFromFirst` | scripts/update-descriptions.js:23-26 | an occurrence with none before it is the one found |
| `Descriptions.IntroMatch` | scripts/update-descriptions.js:23-26 | the match starts at the first `collection-intro` opening tag and ends with the first `</p>` after it; none when no opening tag has a `</p>` after it |
| `Descriptions.IntroParagraph` | scripts/update-descriptions.js:25 | the replacement: the opening tag followed by the body around the description |
| `Descriptions.TemplateShape` | scripts/update-descriptions.js:25 | the template is the opening tag, a newline, 16 spaces, the description, a newline, 12 spaces, `</p>` |
| `Descriptions.TemplateParts` | scripts/update-descriptions.js:25 | the template starts with the opening tag and continues with its body |
| `Descriptions.LeadTailFacts` | scripts/update-descriptions.js:25 | the text around the description has no `<` except in the final `</p>` |
| `Descriptions.ReplaceIntro` | scripts/update-descriptions.js:23-26 | with a match, the text before the opening tag and after its `</p>` is unchanged and the paragraph is the template; without one the page is unchanged |
| `Descriptions.NoCloseInsideTemplate` | scripts/update-descriptions.js:25 | the template has no `</p>` before its own when the description has none |
| `Descriptions.OccursWithin` | scripts/update-descriptions.js:23-26 | an occurrence inside an embedded string is an occurrence in the whole string |
| `Descriptions.SliceTail` | scripts/update-descriptions.js:23-26 | the tail of an embedded string is embedded at the shifted position |
| `Descriptions.BodyAfterOpen` | scripts/update-descriptions.js:23-26 | where the template is embedded, its body is embedded right after the opening tag |
| `Descriptions.BodyEndsWithClose` | scripts/update-descriptions.js:25 | the template's body ends with `</p>` |
| `Descriptions.FirstAtEnd` | scripts/update-descriptions.js:23-26 | a pattern occurring in an embedded string only at its end is found there by the search |
| `Descriptions.CloseInBody` | scripts/update-descriptions.js:23-26 | searching an embedded template body for `</p>` finds the body's own |
| `Descriptions.CloseOnlyAtEnd` | scripts/update-descriptions.js:23-26 | the first `</p>` after the template's opening tag is the template's own |
| `Descriptions.OpenStaysFirst` | scripts/update-descriptions.js:23-26 | with the page unchanged before the first opening tag and the template there, that tag is still the first |
| `Descriptions.MatchFromSearches` | scripts/update-descriptions.js:23-26 | the match spans from the found opening tag to the end of the first `</p>` after it |
| `Descriptions.MatchOfTemplateAt` | scripts/update-descriptions.js:23-26 | a page with the template where the first opening tag was is matched exactly on the template |
| `Descriptions.PrefixSameOccurrence` | scripts/update-descriptions.js:23-26 | before the first opening tag, the rewritten page has no opening tag either |
| `Descriptions.IntroMatchOfReplaced` | scripts/update-descriptions.js:23-26 | on the rewritten page the expression matches exactly the new paragraph |
| `Descriptions.ReplaceIntroIdempotent` | scripts/update-descriptions.js:19-26 | a second run with the same description, one with no `</p>`, changes nothing |
| `Descriptions.UpdatedFolder` | scripts/update-descriptions.js:14-26 | a folder missing `Description.txt` or `index.html` is untouched; otherwise its page gets the trimmed description |
| `Descriptions.UpdateDescriptions` | scripts/update-descriptions.js:10-30 | every folder is updated on its own and logged as skipped exactly when a file is missing |
| `Wrappers.Option.GetOr` | js/main.js:214-215 | a missing element gives the default `''`, a present one its text |

## Left out

- Scroll animations and image lazy loading through `IntersectionObserver`
  (js/main.js:13-35, 315-334): browser callbacks with no logic of their own.
- The header colour on scroll, smooth scrolling, parallax, the hover tilt, the
  page transitions and the scroll progress bar (js/main.js:132-171, 293-309,
  340-454). They are float arithmetic on pixel values, timer and animation-frame
  scheduling, or plain DOM calls.
- The call to `updateHeaderCallback` after a theme click (js/main.js:60-63): it
  is a call into the header component, which is not part of this model.
- The early returns when an element is missing (the theme button, the menu
  button or links, the lightbox or an empty gallery: js/main.js:45, 76, 181).
  The constructors model only the case where the elements exist. When the
  theme button is missing, a saved `'light'` is not applied either.
- Missing children of the gallery and the overlay. The model assumes that every
  gallery item has an `<img>` (otherwise js/main.js:212 throws a TypeError on
  `img.src`). It assumes that the overlay has its `.lightbox-image`,
  `.lightbox-title`, `.lightbox-location` and `.lightbox-counter` elements
  (js/main.js:183-186). Without one of them, `updateLightboxContent` throws at
  212-216 on every open, previous and next, and in `openLightbox` that happens
  after `currentIndex` is set and before `active` is added (195-197). It also
  assumes that the overlay has its close, previous and next buttons (otherwise
  js/main.js:234-236 throws, which stops `initLightbox` and the rest of
  `init`). `GalleryItem` has a mandatory `src` and `alt`, so such a
  page cannot be expressed.
- The menu's and the lightbox's writes to the one shared `body.style.overflow`
  (js/main.js:83, 91, 198, 203). Each class keeps its own `bodyOverflow`; how
  the two interact is not specified.
- Lightbox.SwipeNav: touch coordinates are integers here, while `screenX` is a
  double in the browser.
- MobileMenu.Menu.constructor: the page's initial classes and `aria-expanded`
  are not known, so consistency is only promised after the first open, close
  or toggle.
- scripts/optimize-images.js: its work is done by an image library that is not
  part of this model, and by asynchronous file access.
- File reads and writes, directory listing, the `isDirectory` filter and the
  console output (scripts/add-lazy-loading.js:7, 23-24, 28, 40-42;
  scripts/update-descriptions.js:1-8, 20, 28-29). Directory contents are given
  as input; only the counts of the lazy-loading log are modelled.
- The regular-expression engine of the lazy-loading script. A page is given
  already cut into the pieces the expression finds.
- Descriptions.ReplaceIntro: `$` substitution patterns of
  `String.prototype.replace` (`$$`, `$&`, `` $` ``, `$'`) are not modelled. The
  description is required to contain no `$`, which UpdateDescriptions also
  requires of every folder.

## Findings

| source | as written | input that shows it | evidently intended | confidence | as-written member | corrected member |
|---|---|---|---|---|---|---|
| scripts/add-lazy-loading.js:24 | the log line reports `imageCount - 2` lazy images | a page with one image logs "(1 images, -1 lazy)" | the number of tags made lazy, `max(0, imageCount - 2)` (0 here), which `RewriteCounts` proves is the number of new lazy tags and `AddLazyLoading` returns | medium, not executed | `LazyLoading.LoggedLazyCountNegative` | `LazyLoading.LazyTotal` |
