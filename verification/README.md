# Brochure-site page script, modelled in Dafny

The site's one script, `js/main.js`, wires five independent behaviours to the page:

- the mobile navigation toggle;
- the category filter over gallery items or product cards;
- the lightbox over the visible gallery items, with its keyboard handler;
- the submit-time validation of forms marked `data-validate`;
- marking the navigation link of the current page.

This project takes the rules these behaviours apply and states them over plain data. Records and sequences stand in for DOM nodes. Each event handler becomes a pure transition function.

| file | module | what it holds |
|---|---|---|
| `js.dfy` | `Js` | absent values, numbers with `NaN`, the truncating `%`, out-of-range indexing, `s \|\| ''` |
| `text.dfy` | `Text` | ECMAScript white space and `trim` |
| `gallery.dfy` | `Gallery` | gallery items, `getVisibleItems`, `indexOf` |
| `filter.dfy` | `Filter` | filter buttons and the settled result of a filter click |
| `lightbox.dfy` | `Lightbox` | open / close / navigate, item clicks, the keydown handler |
| `email.dfy` | `Email` | the e-mail regular expression as a predicate over characters, and a one-pass matcher |
| `form.dfy` | `Form` | the submit handler of a validated form |
| `nav.dfy` | `Nav` | the hamburger toggle |
| `active_page.dfy` | `ActivePage` | `split('/').pop()`, the `index.html` default, link marking |
| `page.dfy` | `Page` | how the filter and the lightbox interact through the shared gallery |

A gallery item is identified by its position in the gallery, just as the script identifies a node by reference. `getVisibleItems` therefore returns positions. `currentIndex` is a JavaScript number, modelled as an integer or `NaN`. In JavaScript `-1 % 1` is `-0`, and `visible[-0]` reads element 0, so a negative zero is folded into 0.

Points where the code behaves differently from what a reader might expect, each modelled as the code has it:

- The caption comes only from `data-caption`; the label is never a fallback. The label goes to the image surface instead (`js/main.js:84-85`). `Lightbox.Open` states that.
- An out-of-range `openLightbox` still overwrites `currentIndex` before its `if (!item) return` (`js/main.js:78-80`). `Lightbox.Open` states that too.
- `navigate` has no guard for an empty visible list (`js/main.js:97`). See "Findings".
- Only required fields are pattern-checked as e-mail, because the check sits inside the loop over required fields (`js/main.js:145-153`).
- The `currentPage === ''` disjunct cannot fire, because the `|| 'index.html'` default already makes the name non-empty (`js/main.js:182-185`).

## Model

| member | source | states |
|---|---|---|
| `Text.Trim` | js/main.js:149 | `trim()` returns a contiguous slice that neither starts nor ends with white space, and only white space is cut away on either side |
| `Text.TrimEmptyIffAllWs` | js/main.js:149 | the trimmed value is empty exactly when the whole value is white space |
| `Text.TrimIdempotent` | js/main.js:149 | a sanity property of `trim` (the script itself only trims raw values): trimming a trimmed value changes nothing |
| `Gallery.VisiblePositions` | js/main.js:72-74 | the visible list holds, in document order and once each, exactly the items whose display is not `none` |
| `Gallery.IndexOf` | js/main.js:104 | `indexOf` gives -1 exactly when the item is not in the list, otherwise the first index holding it |
| `Gallery.IndexOfVisible` | js/main.js:101-106 | a clicked visible item's `indexOf` result reads that same item back; a hidden item's result is -1 |
| `Filter.Click` | js/main.js:38-60 | exactly the clicked button is active afterwards; the gallery is filtered when it has items, the product cards otherwise, and the other collection is untouched; every item of the filtered collection ends shown iff the key is `"all"` or equals its category, and nothing else about it changes |
| `Filter.LastClickWins` | js/main.js:42-58 | the settled page depends only on the last button clicked, so a repeated click is idempotent |
| `Filter.VisibleAfterClick` | js/main.js:45-47 | after a click on a page with gallery items, an item is in the lightbox's visible list iff it matches the clicked key |
| `Filter.AllShowsEverything` | js/main.js:47-48 | the key `"all"` leaves every item of the filtered collection shown |
| `Lightbox.Open` | js/main.js:76-88 | the index is always stored; an out-of-range index changes nothing else; an in-range index opens on that visible item with its label as image text, its `data-caption` (or '') as caption, and body overflow `hidden` |
| `Lightbox.Close` | js/main.js:90-93 | closing clears the open marker and restores overflow to '', keeping the index and the texts |
| `Lightbox.Navigate` | js/main.js:95-99 | with no visible item the step only turns the index into `NaN`; from a `NaN` index a step changes nothing |
| `Lightbox.NavigateInRange` | js/main.js:95-98 | with at least one visible item and an index of -1 or more, one step either way lands in [0, n) and shows the item there |
| `Lightbox.NavigateIsModular` | js/main.js:97 | from an index inside the visible list, a step is the step modulo the visible count |
| `Lightbox.NavigateWraps` | js/main.js:97 | +1 from n-1 gives 0, and -1 from 0 gives n-1 |
| `Lightbox.NavigateFromStale` | js/main.js:97-104 | from the -1 of a hidden item's click, +1 gives 0 and -1 gives n-2 (0 when n is 1) |
| `Lightbox.OnItemClick` | js/main.js:101-106 | clicking a visible item opens the lightbox on that very item; clicking a hidden one only leaves -1 in the index |
| `Lightbox.OnKey` | js/main.js:117-122 | while closed every key is ignored; while open Escape closes, ArrowLeft/ArrowRight are exactly `navigate(-1)`/`navigate(1)`, other keys do nothing |
| `Lightbox.Step` | js/main.js:101-122 | every lightbox handler keeps body scrolling suppressed exactly while the lightbox is open |
| `Lightbox.StepKeepsIndexOk` | js/main.js:78-104 | every handler keeps the index `NaN` or an integer of at least -1, whatever the gallery is at the time |
| `Lightbox.RunFromLoadKeepsInvariants` | js/main.js:70-122 | from page load (`currentIndex` 0, closed, default overflow), any run of lightbox events over changing galleries keeps scrolling suppressed exactly while open and keeps the index `NaN` or at least -1 |
| `Lightbox.UnguardedStepSticksAtNaN` | js/main.js:95-98 | as written, a step over an empty visible list leaves a `NaN` index that no later step changes |
| `Lightbox.ArrowKeysDeadAfterEmptyFilter` | js/main.js:95-122 | a concrete run: after ArrowRight over an emptied gallery, ArrowRight does nothing although an item is visible again |
| `Lightbox.NavigateGuarded` | js/main.js:95-99 | the guarded step: with no visible item nothing changes, otherwise it is the script's step; so from an integer index of -1 or more one step either way keeps the index an integer of -1 or more, and lands in range on a shown item whenever an item is visible |
| `Lightbox.GuardedStepsAlwaysShow` | js/main.js:95-98 | guarded steps in any mix of directions (+1 and -1), each over its own gallery, keep an integer index of at least -1, and a step taken while an item is visible shows one |
| `Email.PatternIffLooseAddress` | js/main.js:154 | the regular expression matches iff the string has no white space, exactly one `@`, something before it, and a `.` that is neither first nor last after it |
| `Email.Test` | js/main.js:154-155 | a one-pass scan answers exactly what the regular expression answers |
| `Email.Samples` | js/main.js:154 | "not-an-email" is rejected and "a@b.c" is accepted |
| `Form.CheckField` | js/main.js:148-159 | a required field is flagged iff its trimmed value is empty or, for an e-mail field, fails the pattern |
| `Form.OnSubmit` | js/main.js:143-178 | the default action is prevented on both branches; the form is valid iff every required field passes; required fields get a fresh error border, others are untouched; a valid form's submit control reads "Sent!" and is disabled, an invalid form's is unchanged |
| `Form.PassesIff` | js/main.js:149-158 | a required field passes iff its value is not all white space and, for an e-mail field, the trimmed value has the loose address shape |
| `Nav.Click` | js/main.js:7-30 | a trigger click flips both markers and sets `aria-expanded` to the new value; a panel-link or outside click leaves both markers off and consistent; a click elsewhere in the panel changes nothing |
| `Nav.ClickKeepsConsistent` | js/main.js:7-30 | every click keeps the two markers equal and `aria-expanded` matching them |
| `Nav.RunKeepsMarkersTogether` | js/main.js:7-30 | from equal markers, any click sequence keeps them equal, and `aria-expanded` matches them once any click reached a handler |
| `Nav.ToggleKeepsDisagreement` | js/main.js:8-9 | the markers stay together only because they start together: the toggle keeps any disagreement |
| `ActivePage.Split` | js/main.js:182 | `split` always yields at least one piece and no piece holds the separator |
| `ActivePage.JoinSplit` | js/main.js:182 | joining the pieces of a split gives the string back |
| `ActivePage.LastSegmentAfterLastSlash` | js/main.js:182 | `pop()` of the split is the suffix after the last `/` |
| `ActivePage.CurrentPage` | js/main.js:182 | the derived page name is never empty and holds no `/`; it is the part after the last `/`, or `index.html` when that part is empty |
| `ActivePage.CurrentPageOf` | js/main.js:182 | a path ending in `/` gives `index.html`; a path ending in `/name` gives `name` |
| `ActivePage.MarkLinks` | js/main.js:183-188 | a link ends active iff it was active or its `href` equals the derived name verbatim; the empty-name disjunct never fires |
| `ActivePage.HomeLinkMarked` | js/main.js:182-188 | at `.../index.html` or `.../`, exactly the links to `index.html` gain the marker |
| `Page.StepAfterFilterShowsMatch` | js/main.js:45-98 | after a filter click with the lightbox open, a step from an integer index of -1 or more shows an item matching the key when one exists, and otherwise only turns the index into `NaN` |
| `Page.ProductFilterLeavesLightbox` | js/main.js:45-73 | a corollary of `Filter.Click` leaving the gallery untouched when it is empty: filtering product cards leaves every lightbox step as it was, because the lightbox reads only gallery items |

## Findings

| source | as written | input that shows it | evidently intended | confidence | as-written member | corrected member |
|---|---|---|---|---|---|---|
| js/main.js:95-98 | `navigate` computes `(currentIndex + direction + visible.length) % visible.length` with no guard for an empty visible list, so the index becomes `NaN`; `NaN` then survives every later step | lightbox open on the only gallery item; a filter hides it and 300 ms pass; ArrowRight; the filter shows it again; ArrowRight does nothing, and the prev/next controls stay dead until an item is clicked | the `if (!item) return` guard of `openLightbox` (js/main.js:80) shows the script means to ignore an index it cannot show; a step with no visible item should likewise return before touching `currentIndex`, so that every later step taken while an item is visible shows one | medium, not executed; the filter is reached by keyboard behind the open overlay | `Lightbox.ArrowKeysDeadAfterEmptyFilter` | `Lightbox.GuardedStepsAlwaysShow` |

`Lightbox.Navigate`, `Lightbox.OnKey` and `Lightbox.Step` keep the script's unguarded step. This way every property above describes the code as it runs. `Lightbox.NavigateGuarded` is a drop-in replacement. It is the script's step whenever an item is visible, so all the range and wrap lemmas above hold for it unchanged. `Lightbox.GuardedRun` chains guarded steps, each with its own gallery and its own direction.

## Left out

- DOM querying and listener registration are not modelled. Each handler is a transition function over the state it touches. The click target of a nav click is classified in advance (trigger, panel link, elsewhere in panel, outside).
- A unit whose markup is missing attaches no handler. The model assumes the markup is present: the hamburger and the panel, the lightbox root with its `.lightbox-image` and `.lightbox-caption` children, and a submit control in each validated form. The script never checks for the two lightbox children: without the image surface `openLightbox` throws at `js/main.js:83`, after it has already stored the index. A valid form without a submit control throws after `preventDefault` (`js/main.js:167-169`); the invalid branch never reads it. Neither exception is modelled.
- Filter.Click: states only the settled display. The opacity fade (`requestAnimationFrame`, the 0.3 s transition) and the 300 ms hide timer are visual timing. The timers cannot be cancelled, so a second click within 300 ms can have the first click's timer hide an item the second click showed. The settled model assumes clicks more than 300 ms apart.
- Page.StepAfterFilterShowsMatch: holds for a step taken after the filter's 300 ms hide timer has fired (`js/main.js:56`). Inside that window a non-matching item still has its old `display`, so `getVisibleItems` still lists it and a step can land on it.
- Lightbox.Open: does not model copying `getComputedStyle(item).background` onto the image surface. It is an opaque browser value.
- The IntersectionObserver fade-in (`js/main.js:125-138`) is left out. It is driven by the browser's layout and a floating-point threshold.
- Moving focus to the first field with an error border (`js/main.js:163-165`) is left out. It depends on how the browser serialises the colour in the style attribute.
- Form.OnSubmit: stops at the immediate state of a valid submit ("Sent!", disabled). The 2 s restoration of the label and the `form.reset()` behind it are timing.
- `IsWs` lists the WhiteSpace and LineTerminator characters of ECMAScript, with the space separators of current Unicode. An engine built on another Unicode version may differ.
- Strings are sequences of Unicode scalar values, while JavaScript strings are UTF-16 code units. No character outside the Basic Multilingual Plane is white space, `@` or `.`, so trimming and the e-mail pattern treat both the same.
