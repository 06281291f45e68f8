# Industrial-supplier website: verified model of the page script

The site's single script, `assets/js/main.js`, wires a handful of small state
machines into the page's DOM. This project models those state machines in
Dafny. DOM elements become records of boolean class flags, or arrays of such
records. Scroll offsets and element rectangles become integers. Each handler
becomes a method on that state or a function over it, and the behaviour the
page depends on is proved.

- `Slideshow.dfy`: the portfolio slideshow.
  - The global `slideIndex` is the field of a `Slideshow` class, over arrays of `active` flags for the slides and the dots.
  - `showSlides` is the `ShowSlides` method. It wraps the index with the code's own `1`/`slides.length` reset rule, which is not modular arithmetic.
  - Its two loops clear every flag, and then it sets exactly one slide and one dot.
  - With no slides it does nothing. If there are fewer dots than slides, it reports the failed `dots[slideIndex - 1]` access.
  - `changeSlide`, `currentSlide` and `initSlideshow` are methods on the same class. The auto-advance timer is described by `Advance`, which is proved cyclic, and by `AutoPlay`, which also stops at the first slide without a dot until `startAutoSlide` runs again.
- `ProductFilter.dfy`: the product tab handler. It works in place on an array of tab buttons and an array of product cards.
- `MobileMenu.dfy`: the mobile menu. It has three `active` flags plus the body's `overflow` style. Its events are the toggle button, the overlay, the links, a settled resize and a key press.
- `ScrollEffects.dfy`: the scroll handlers.
  - The header `scrolled` threshold and the back-to-top opacity threshold.
  - `highlightNavigation`, which marks the nav link of the section under the scroll position.
- `AnimationLatch.dfy`: the four one-shot "animated" latches (`statsAnimated`, `featuresAnimated`, `listAnimated`, `industryStatsAnimated`) and their visibility test. They are modelled as one class parameterised by the latch's margin.
- `WhatsApp.dfy`: the text and link that the contact form's email callbacks open in the chat app.
  - The success variant carries a date line; the failure variant does not.
  - The file also models what the chat app reads back from such a link.
- `UrlQuery.dfy` models the reading end of a link, following the WHATWG URL Standard. The relevant parts are:
  - The basic URL parser trims leading and trailing C0 controls and spaces, then drops ASCII tab and newline characters.
  - The `application/x-www-form-urlencoded` parser splits the query at `&`, a `#` starts the fragment, `+` reads as a space, and `%XX` is percent-decoded.
- `Wrappers.dfy` holds the `Option` type.

The template that builds the deep link's text writes its own line breaks
already percent-encoded, as `%0A` (`assets/js/main.js:870-876`), so the text is
meant to travel as an encoded query value. The field values, however, are
pasted in as typed. The model follows the code, and the consequences are
recorded under "Findings".

## Model

| member | source | states |
|---|---|---|
| Slideshow.Wrapped | assets/js/main.js:1044-1052 | The index `showSlides` settles on always lies in `1..slides.length`, and an index already in range is kept. |
| Slideshow.OneHotCount | assets/js/main.js:1055-1066 | Clearing every flag and then setting the one at `slideIndex - 1` leaves exactly one flag set if that position exists, otherwise none. |
| Slideshow.ExactlyOneActive | assets/js/main.js:1055-1066 | For an index in range, exactly one flag is set: the one at that index, and no other. |
| Slideshow.ClearedCount | assets/js/main.js:1060-1062 | After the dot loop clears every dot, no dot is active. |
| Slideshow.NextFromLastIsFirst | assets/js/main.js:1025-1029 | `changeSlide(1)` from the last slide shows slide 1. |
| Slideshow.PreviousFromFirstIsLast | assets/js/main.js:1025-1029 | `changeSlide(-1)` from slide 1 shows the last slide. |
| Slideshow.OutOfRangeIsNotModular | assets/js/main.js:1046-1052 | Any index above the count resets to 1 and any index below 1 resets to the count. With at least two slides this differs from arithmetic modulo the count, e.g. at `count + 2`. |
| Slideshow.SingleStepIsModular | assets/js/main.js:1025-1029 | A single step forward or back from a valid index agrees with arithmetic modulo the number of slides. |
| Slideshow.Advance | assets/js/main.js:1013-1017 | `k` ticks of the auto-advance timer, each of which succeeds, keep the index in `1..count`. |
| Slideshow.AdvanceIsCyclic | assets/js/main.js:1013-1017 | `k` successful ticks from slide `i` land on slide `(i - 1 + k) mod count + 1`, so while every tick succeeds the show cycles through every slide. |
| Slideshow.AutoPlay | assets/js/main.js:1013-1029 | The timer on a page with a given number of dots keeps the index in `1..count`, and stops ticking once the slide shown has no dot, because that `showSlides` throws before `startAutoSlide`; it stays stopped until `startAutoSlide` runs again. |
| Slideshow.AutoPlayWithEveryDot | assets/js/main.js:1013-1029 | With at least as many dots as slides every tick succeeds, and auto-play is `Advance`: it cycles through every slide. |
| Slideshow.AutoPlayStopsAtMissingDot | assets/js/main.js:1025-1028 | With fewer dots than slides, one uninterrupted run of auto-play never goes past the first slide without a dot, and reaches it once enough ticks have come; it stays there until `startAutoSlide` runs again. |
| Slideshow.DisplayedPairIsUnique | assets/js/main.js:1055-1066 | After `showSlides` on a page with at least as many dots as slides, the call has succeeded, and exactly one slide and exactly one dot are active: the pair at `slideIndex - 1`. |
| Slideshow.Slideshow.constructor | assets/js/main.js:1003 | The slideshow starts at index 1. |
| Slideshow.Slideshow.ShowSlides | assets/js/main.js:1039-1067 | With no slides, nothing changes. Otherwise `slideIndex` becomes the wrapped index and exactly one slide flag is set, at `slideIndex - 1`. Each dot is cleared and the matching dot set when it exists; the method reports failure when it does not. |
| Slideshow.Slideshow.Init | assets/js/main.js:1007-1010 | Initialisation shows the slide at the current index under the same postcondition as `ShowSlides`. |
| Slideshow.Slideshow.ChangeSlide | assets/js/main.js:1025-1029 | The index is shifted by `n` before it is shown. With no slides the shifted index is kept, so it drifts. Otherwise it is wrapped and displayed; a failure means the call threw before restarting the timer. |
| Slideshow.Slideshow.CurrentSlide | assets/js/main.js:1032-1036 | The index is set to `n` and then wrapped and displayed as by `ShowSlides`. |
| ProductFilter.ClickTab | assets/js/main.js:434-463 | After a click, the tabs are the old tabs with only the clicked one active. Every card is filtered by the clicked tab's category as it was before the click. |
| ProductFilter.ActivatedTabsCount | assets/js/main.js:439-442 | After a click, exactly one tab carries `active`. |
| ProductFilter.ClickedTabIsTheOnlyActive | assets/js/main.js:439-442 | Exactly one tab is active and it is the clicked one. Every tab keeps its category. |
| ProductFilter.FilterShowsExactlyTheSelected | assets/js/main.js:445-461 | A card is shown (`show` set, `hidden` cleared) iff the category is `all` or equals the card's category; otherwise it is hidden. The two flags are never both set. |
| ProductFilter.AllShowsEverything | assets/js/main.js:448 | The `all` tab shows every card. A category that no card carries hides every card. |
| ProductFilter.ClickIsIdempotent | assets/js/main.js:434-463 | Clicking the same tab twice gives the same tabs and cards as clicking it once. |
| MobileMenu.Toggled | assets/js/main.js:18-25 | Toggling flips each of the three `active` flags (toggle, panel, overlay), and the overflow is `hidden` exactly when the panel is open. Flags that agreed before still agree. |
| MobileMenu.CloseMenu | assets/js/main.js:43-48 | Closing clears all three flags and the overflow, whatever the state before. |
| MobileMenu.React | assets/js/main.js:17-59 | A toggle click toggles the menu. An overlay or link click closes it. Every other event either closes the menu or leaves it as it was. |
| MobileMenu.ReactKeepsSynced | assets/js/main.js:17-59 | Every menu event preserves the invariant: three equal flags, with `hidden` overflow exactly when open. |
| MobileMenu.ReplayKeepsSynced | assets/js/main.js:17-59 | Any sequence of menu events from a synced state (such as the initial closed state) ends in a synced state. |
| MobileMenu.ToggleTwiceRestores | assets/js/main.js:19-24 | From a synced state, two toggles restore the original state. |
| MobileMenu.CloseIsIdempotent | assets/js/main.js:43-48 | Closing an already closed menu changes nothing. |
| MobileMenu.EscapeClosesOnlyAnOpenMenu | assets/js/main.js:157-161 | Escape closes the menu iff the panel is active; any other key leaves the state unchanged. |
| MobileMenu.WideResizeCloses | assets/js/main.js:52-59 | A settled resize wider than 768 pixels always closes the menu; a narrower one changes nothing. |
| MobileMenu.Menu.Toggle | assets/js/main.js:18-25 | The menu's new state is the toggled old state. |
| MobileMenu.Menu.Close | assets/js/main.js:43-48 | The menu's new state is the closed state. |
| MobileMenu.Menu.OverlayClicked | assets/js/main.js:29-33 | An overlay click closes the menu. |
| MobileMenu.Menu.LinkClicked | assets/js/main.js:36-40 | A navigation link click closes the menu. |
| MobileMenu.Menu.ResizeSettledAt | assets/js/main.js:52-59 | A settled resize closes the menu when wider than 768 and leaves it alone otherwise. |
| MobileMenu.Menu.KeyPressed | assets/js/main.js:157-161 | A key press closes the menu only for Escape while the panel is open. |
| ScrollEffects.HeaderScrolled | assets/js/main.js:69-73 | The header carries `scrolled` exactly when the offset exceeds 50; its properties are in `HeaderFollowsOffset`. |
| ScrollEffects.BackToTopOpacity | assets/js/main.js:964-968 | The back-to-top opacity is `1` above an offset of 500 and `0.7` otherwise; its properties are in `BackToTopFollowsOffset`. |
| ScrollEffects.InSection | assets/js/main.js:85-91 | The scroll position is inside a section when it is greater than the section's top less 150 and at most that value plus the section's height. |
| ScrollEffects.HeaderFollowsOffset | assets/js/main.js:65-76 | The header has `scrolled` iff the offset exceeds 50. Scrolling back to 50 or less removes it, and the previous state plays no part. |
| ScrollEffects.BackToTopFollowsOffset | assets/js/main.js:963-969 | The back-to-top opacity is `1` iff the offset exceeds 500 and `0.7` otherwise. |
| ScrollEffects.FirstLink | assets/js/main.js:89 | The lookup by `href` returns the first link with that `href`, or none if no link has it. |
| ScrollEffects.LastSectionIn | assets/js/main.js:85-91 | It returns the last section (in document order) whose range contains the scroll position; no later section matches. |
| ScrollEffects.Highlighted | assets/js/main.js:82-103 | Highlighting keeps the number of links and every link's `href`. |
| ScrollEffects.HighlightMarksCurrentSection | assets/js/main.js:82-103 | With no section under the scroll position, the links are untouched. Otherwise exactly the first link pointing at the last matching section is active, or none if no link points there. |
| ScrollEffects.AtMostOneActiveLink | assets/js/main.js:91-100 | When some section contains the scroll position, at most one link is active after the pass, whatever the flags were before. |
| ScrollEffects.HighlightNavigation | assets/js/main.js:82-103 | The in-place pass over the link array leaves exactly the highlighted links. |
| AnimationLatch.Visible | assets/js/main.js:247 | The visibility test with a margin: the element's top is above the viewport's height less the margin (0 here, 100 at line 304) and its bottom is not above the viewport. |
| AnimationLatch.Step | assets/js/main.js:240-262 | Once latched, a check does nothing. Otherwise it latches exactly when the element exists and passes the visibility test, and the animation starts exactly on that change. The same shape holds at lines 297-315, 324-349 and 535-559. |
| AnimationLatch.AnimatesAtMostOnce | assets/js/main.js:240-262 | Over any sequence of scroll checks the animation starts at most once. It has started iff some check saw the element visible. |
| AnimationLatch.LatchedIsFinal | assets/js/main.js:241 | After the latch is set, every later check returns with no effect. |
| AnimationLatch.VisibilityBounds | assets/js/main.js:304 | The `innerHeight - 100` test used by the features, list and industry latches implies the plain test used by the stats latch. An element above the viewport, or below the shrunken viewport, is never visible. |
| AnimationLatch.MarginsCompared | assets/js/main.js:247 | The features, list and industry latches share the margin 100. At the same position and viewport height, an element the 100-pixel test accepts is accepted by the stats latch's test, and an element above the viewport is accepted by neither. |
| AnimationLatch.OneShotAnimation.constructor | assets/js/main.js:238 | A latch starts unset, with no animation started. |
| AnimationLatch.OneShotAnimation.OnScroll | assets/js/main.js:240-262 | A scroll check updates the latch as `Step` says, with the latch's own margin. |
| UrlQuery.HexDigit | assets/js/main.js:870 | A hex digit written into an escape reads back as its own value. |
| UrlQuery.Escape | assets/js/main.js:870 | Percent-encoding leaves no character that would break or cut a query value. With the blanks escaped as well, it leaves no C0 control or space either. |
| UrlQuery.UnescapeEscape | assets/js/main.js:870 | Percent-decoding undoes percent-encoding for every string and either escape set. |
| UrlQuery.TrimEnd | assets/js/main.js:879 | Trimming the link's end keeps a prefix of it that does not end in a C0 control or space. |
| UrlQuery.TrimEndAppend | assets/js/main.js:879 | Trimming `a + b` leaves `a` untouched when `a` ends in a character that is not trimmed. |
| UrlQuery.ValuePartStopsAtAmpersand | assets/js/main.js:871 | Once the text holds an `&`, nothing appended after it changes the value read, so a query value ends at its first `&`. |
| WhatsApp.EmailShown | assets/js/main.js:873 | The email line is never empty. It shows the email when one was given, and `Not provided` otherwise. |
| WhatsApp.InquiryText | assets/js/main.js:893-899 | The failure callback's text: the heading, the name, phone, email (or `Not provided`) and service lines and the message, with `%0A` breaks. Its properties are in `TextCarriesTheFields` and `TextEndings`. |
| WhatsApp.DatedInquiryText | assets/js/main.js:869-876 | The success callback's text: the same lines, then two breaks and the date line. Its relation to the failure text is in `DatedTextExtendsText`. |
| WhatsApp.OpenedLink | assets/js/main.js:879 | The link the submit handler opens is the chat link of the text of the callback that ran. Its properties are in `LinkCarriesTheFields` and `PlainFormArrivesIntact`. |
| WhatsApp.ReceivedOfChatLink | assets/js/main.js:879 | From a chat link the chat app reads the text less its trailing blanks and its tabs and newlines, cut at the first `&` or `#`, then percent-decoded. |
| WhatsApp.DatedTextExtendsText | assets/js/main.js:869-876 | The success text is the failure text followed by two encoded breaks and the `Sent from website on <date>` line. |
| WhatsApp.TextEndings | assets/js/main.js:869-899 | The success text ends with the date line, and the failure text ends with the message. |
| WhatsApp.TextCarriesTheFields | assets/js/main.js:893-899 | The text holds the name, phone, shown email, service and message verbatim. |
| WhatsApp.OpenedTextCarriesTheFields | assets/js/main.js:869-899 | Under either outcome the text carries the name, phone, shown email, service and message verbatim. |
| WhatsApp.LinkCarriesTheFields | assets/js/main.js:869-901 | Under either outcome the opened link starts with the chat URL and carries every field verbatim. On success it also carries the `Sent from website on <date>` line. |
| WhatsApp.PlainFormArrivesIntact | assets/js/main.js:869-901 | When no field holds `%`, `&`, `#`, `+`, a tab or a line break (nor the date, on success), the chat app receives the intended multi-line message: exactly, with the date line, on success. On failure it receives it with the message's trailing blanks removed, so exactly when the message does not end in one. |
| WhatsApp.TrailingBlankIsDropped | assets/js/main.js:893-901 | As written, when the email call fails and the message ends in a space or another blank, the chat app receives a text shorter than the intended message. |
| WhatsApp.AmpersandInNameCutsText | assets/js/main.js:869-879 | As written, a name `x&y`, with no `&`, `#`, tab or line break in `x`, makes the chat app receive exactly the heading and `Name: x`, decoded, and so a text shorter than the intended message, whatever `y`, the other fields and the outcome. |
| WhatsApp.EncodedLink | assets/js/main.js:879 | With the whole message percent-encoded, blanks included, the chat app receives exactly the intended message for every form and either outcome. |
| WhatsApp.EncodedLinkAgreesOnPlainFields | assets/js/main.js:869-901 | For forms without reserved characters, the link the page opens now delivers what the encoded link delivers if and only if the email was sent or the message does not end in a blank. |

## Left out

- Timers (`setTimeout`, `setInterval`, `clearTimeout`) are not modelled.
  - The slideshow timer, the staggered animation delays and the 250 ms resize debounce are scheduling only.
  - A resize is modelled at the moment the debounce fires (`ResizeSettled`).
  - Timer ticks are modelled as repeated `changeSlide(1)` (`Advance`, and `AutoPlay`, which stops at the first tick that throws until `startAutoSlide` runs again).
  - `startAutoSlide` overwrites `slideTimer` without clearing it, so the lightbox's Escape handling can leave a second interval running. This is not captured, because the model has no timers.
- IntersectionObserver reveal animations, hover effects and the inline style strings the latches write are left out. They are browser callbacks and presentation.
- `animateCounter` is left out because it is floating-point timing. `parseInt` of the stat text is left out because it is library behaviour. Starting the counters is modelled only as the count of animation starts.
- The email service call, its promises, `window.open`, `alert`, `console`, the form reset and the submit-button states are left out; they are foreign asynchronous I/O. The outcome of the email call is a parameter (`EmailOutcome`), and the opened link is the value `OpenedLink` returns.
- Date formatting (`toLocaleString` in the Asia/Kolkata zone, `getFullYear`) is left out. The formatted date is a string parameter.
- Smooth scrolling, scrolling to the hash on load, the scroll indicator, the lightbox, the iOS `touchmove` fix, the analytics scroll handler, the floating chat button, the footer year and the logo carousel duration are left out. They are layout measurement or presentation.
- MobileMenu.CloseMenu: the per-element presence checks in `closeMenu` are not modelled; the toggle, panel and overlay are assumed present. The toggle handler is registered only when the toggle exists, and the Escape handler reads the panel unconditionally.
- ScrollEffects.HighlightMarksCurrentSection: the links searched are one list, standing for both the `.nav-link` elements that are cleared and the `.nav-menu a` elements that are searched. A link matching only one of the two selectors is not modelled.
- ScrollEffects.HeaderFollowsOffset: `pageYOffset` is modelled as an integer. A fractional offset on zoomed displays is not modelled. The variable `lastScroll` is written but never read, and it is left out.
- AnimationLatch.Step: the element's absence (`if (!heroStats) return`, `statCards[0]` undefined) is a `None` target. The rectangle's top and bottom are integers.
- Slideshow.Slideshow.ShowSlides: it requires its argument to equal `slideIndex`, as at every call site. The slide and dot lists are fixed when the class is constructed, while the code re-queries them on every call.
- Slideshow.Advance: it describes the timer only while every tick succeeds. With fewer dots than slides, a tick that shows a slide without a dot throws at line 1066, after `stopAutoSlide` and before `startAutoSlide`, so auto-play halts until `startAutoSlide` runs again; `AutoPlay` captures that halt.
- Slideshow.AutoPlayStopsAtMissingDot: it describes one uninterrupted run of the timer. Two handlers restart it: the `visibilitychange` handler calls `startAutoSlide` whenever the tab becomes visible again (lines 1075-1081), and every Escape key press calls `closeLightbox`, which calls `startAutoSlide` (lines 1097-1101, 1114-1118). After such a restart the next tick moves past the slide without a dot, and either throws again further on or wraps to slide 1. Restarts are not modelled.
- UrlQuery.Escape: percent-encodes only the characters that disturb reading a query value (`%`, `&`, `#`, `+`, tab, line feed, carriage return) and, in its wider set, every C0 control and the space. Other characters that `encodeURIComponent` encodes pass through. A space, a non-ASCII character or a quote that the URL parser percent-encodes inside the query is decoded again by the form-urlencoded parser, so the model reads them as themselves. `Unescape` decodes only escapes of ASCII characters.

## Findings

| source | as written | input that shows it | evidently intended | confidence | as-written member | corrected member |
|---|---|---|---|---|---|---|
| assets/js/main.js:893-901 | The failure text ends with the raw message, and the URL parser trims trailing C0 controls and spaces from the link before reading it. | Email call fails, message `Hi ` (ending in a space), fields otherwise ordinary: the chat app receives the message as `Hi`. | Encoding the text (`encodeURIComponent`) writes the trailing space as `%20`, which the trim leaves alone. | low, not executed | WhatsApp.TrailingBlankIsDropped | WhatsApp.EncodedLink |
| assets/js/main.js:869-879 | The form's field values are pasted into the link's `text` parameter without percent-encoding; only the line breaks are encoded. The failure branch at lines 893-901 does the same. | Name `A&B` with any other fields, under either outcome: the chat app reads the text only up to the `&`, so the message arrives cut off after `Name: A`. | The link's text is the whole message URL-encoded (`encodeURIComponent`), so every field arrives as typed. | high, not executed | WhatsApp.AmpersandInNameCutsText | WhatsApp.EncodedLink |
