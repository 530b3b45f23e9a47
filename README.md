# Front-end decision rules of the marketing-site script, in Dafny

`script.js` wires a marketing website's DOM: a burger menu, smooth scrolling
to same-page anchors, scroll-spy highlighting of nav links, an image
attribute pass, and client-side form validation. This project models the
decision rules inside those handlers over plain data and proves what they
guarantee. An element is a record of its class set and attribute map
(`Dom.Element`). Strings are `seq<char>`.

- `HtmlEscape` (escape.dfy): `escapeHtml`. Each of `& < > " '` becomes its
  entity and every other character is copied. The output holds none of
  `< > " '`. Escaping distributes over concatenation. It is the identity
  exactly on strings without special characters. A reference decoder
  `Unescape` undoes it.
- `BurgerMenu` (menu.dfy): the closure variable `isOpen` and the three DOM
  flags it drives, as the class `NavMenu`. Each listener is a method, and
  `Dispatch` calls them in the order a click bubbles: the element listener
  first, then the document listener. Each method is specified by a function
  on the `View` of the four flags. Lemmas about those functions state which
  events open or close the menu, and that the flags stay in agreement.
  Closing a menu that is already closed touches nothing. So the markup's
  initial `aria-expanded` may disagree with `isOpen` until the first toggle.
  What holds from page load on is that an open menu always shows as open.
- `SmoothScroll` (anchor.dfy): the href split at the first `#` and the
  same-page test of the anchor click handler.
- `ScrollSpy` (scrollspy.dfy): the loop that collects sections from nav links,
  and `updateActiveLink`. The latter runs in place on an array of link
  records.
- `Images` (images.dfy): the `initImages` loop, in place on an array of image
  records.
- `FormValidation` (forms.dfy): the ordered rule table of `validateField`, the
  flag effects of `showError`/`clearError`, the `input` listener and the
  validation loop of the submit listener.
- `JsString` (jsstring.dfy): `indexOf`, `trim` (with ECMAScript's white-space
  set written out), `replace` of a one-character pattern (first occurrence
  only) and `length` in UTF-16 code units.

Outside inputs are parameters:
- The window width and the pressed key.
- Where a click lands: `Target`.
- Section offsets and `pageYOffset`.
- Whether `querySelector` finds an element for a fragment: `hasTarget`,
  `hasElement`.
- The result of the index-file pattern on the current path:
  `currentIsIndexFile`.
- The three validator regular expressions: `Patterns`.

## Model

| member | source | states |
|---|---|---|
| `HtmlEscape.Entity` | script.js:35-41 | a special character maps to an entity that starts with `&`; any other character maps to itself; no entry holds `< > " '` |
| `HtmlEscape.EscapeHtml` | script.js:34-43 | the escaped text contains none of `< > " '` and is never shorter than the input |
| `HtmlEscape.EscapeConcat` | script.js:42 | escaping distributes over concatenation |
| `HtmlEscape.EscapeSplits` | script.js:42 | each character is replaced by its table entry wherever it stands |
| `HtmlEscape.EscapeIdentityIff` | script.js:42 | escaping leaves a string unchanged iff it has no special character |
| `HtmlEscape.UnescapeEscape` | script.js:34-43 | decoding the five entities gives back the original text (nothing is lost) |
| `BurgerMenu.Close` | script.js:58-64 | after closing, the menu is closed; closing a closed menu changes nothing; closing an open one sets all three flags to closed |
| `BurgerMenu.Open` | script.js:66-72 | after opening, the menu is open; opening an open menu changes nothing; opening a closed one sets all three flags to open |
| `BurgerMenu.Toggle` | script.js:74-80 | toggling flips `isOpen` and leaves all three flags in agreement with it; `aria-expanded` becomes `"true"` or `"false"` |
| `BurgerMenu.AfterNavLinkClick` | script.js:88-92 | definition, no contract; specified by `ClosesIff`, `OnlyToggleOpens` and `HandlePreserves` through `Handle` |
| `BurgerMenu.AfterKeyDown` | script.js:95-99 | definition, no contract; specified by `ClosesIff`, `OnlyToggleOpens` and `HandlePreserves` through `Handle` |
| `BurgerMenu.AfterDocumentClick` | script.js:101-105 | definition, no contract; specified by `ClosesIff`, `OnlyToggleOpens` and `HandlePreserves` through `Handle` |
| `BurgerMenu.AfterResize` | script.js:107-111 | definition, no contract; specified by `ClosesIff`, `OnlyToggleOpens` and `HandlePreserves` through `Handle` |
| `BurgerMenu.Handle` | script.js:82-111 | definition, no contract: a click reaches the toggle or nav-link listener, then the document listener; specified by `ClosesIff`, `OnlyToggleOpens` and `HandlePreserves` |
| `BurgerMenu.OnlyToggleOpens` | script.js:82-111 | a closed menu is opened only by a click on the toggle |
| `BurgerMenu.ClosesIff` | script.js:82-111 | an open menu closes exactly on: a toggle click; Escape; a click outside nav and toggle; a nav-link click below width 1024; a resize to 1024 or more |
| `BurgerMenu.HandlePreserves` | script.js:56-111 | each event keeps "open implies shown open"; flags that agree keep agreeing; a toggle click brings them into agreement |
| `BurgerMenu.HandleAllPreserves` | script.js:56-111 | over any run of events the invariant holds, and after any toggle click the flags agree with `isOpen` for good |
| `BurgerMenu.NavMenu.constructor` | script.js:56 | the menu starts closed with the markup's flags, and the invariant holds |
| `BurgerMenu.NavMenu.CloseMenu` | script.js:58-64 | the new state is `Close` of the old one |
| `BurgerMenu.NavMenu.OpenMenu` | script.js:66-72 | the new state is `Open` of the old one |
| `BurgerMenu.NavMenu.ToggleMenu` | script.js:74-80 | the new state is `Toggle` of the old one |
| `BurgerMenu.NavMenu.OnNavLinkClick` | script.js:88-92 | a nav-link click closes the menu below width 1024 and does nothing otherwise |
| `BurgerMenu.NavMenu.OnKeyDown` | script.js:95-99 | Escape closes an open menu; any other key changes nothing |
| `BurgerMenu.NavMenu.OnDocumentClick` | script.js:101-105 | a click outside nav and toggle closes an open menu; any other click changes nothing |
| `BurgerMenu.NavMenu.OnResize` | script.js:107-111 | a resize to width 1024 or more closes the menu; any other resize changes nothing |
| `BurgerMenu.NavMenu.Dispatch` | script.js:82-111 | delivering an event through the listeners, in bubbling order, gives the state `Handle` describes |
| `JsString.IndexOf` | script.js:129-130 | None iff the character is absent; otherwise the position of its first occurrence |
| `SmoothScroll.SplitHref` | script.js:126-133 | an empty, `#`, `#!` or `#`-less href is ignored; otherwise `path + hash == href`, `hash` starts with `#`, and `path` has no `#` |
| `SmoothScroll.SplitHrefUnique` | script.js:129-133 | the split is the only one with a `#`-free path and a `#`-led fragment |
| `SmoothScroll.IsSamePage` | script.js:135-138 | definition, no contract: the four same-page cases; used by the if-and-only-if of `AnchorClick` |
| `SmoothScroll.AnchorClick` | script.js:126-145 | the click is taken over iff the href splits, the path is the current page (empty, equal, `/` on an index file, `/index.html` on `/`) and the fragment's element exists; the fragment pushed starts with `#` |
| `SmoothScroll.FragmentOnlyLinkIsSamePage` | script.js:136 | a bare `#name` link is taken over on any page where its target exists |
| `SmoothScroll.NoFragmentNotTaken` | script.js:129-130 | a link without `#` is never taken over |
| `ScrollSpy.LinkFragment` | script.js:169-171 | a link has a fragment iff its href is present, not empty and holds a `#`; the fragment is the href from its first `#`, so it starts with `#` |
| `ScrollSpy.CollectSections` | script.js:168-182 | sections are in strictly increasing link order; each comes from a qualifying link and carries that link's fragment; every qualifying link gives a section; no two sections share a link, as `ExactlyOneActive` requires |
| `ScrollSpy.LastAtOrAbove` | script.js:187-191 | None iff no section top is at or above the line; otherwise the last section, in list order, whose top is |
| `ScrollSpy.Unmark` | script.js:193-194 | the link loses `active` and `aria-current`; its other classes and attributes are kept |
| `ScrollSpy.Mark` | script.js:196-197 | the link gets `active` and `aria-current="page"`; its other classes and attributes are kept |
| `ScrollSpy.ActiveLinks` | script.js:186-201 | the update keeps the number of links and leaves links outside the sections untouched |
| `ScrollSpy.ExactlyOneActive` | script.js:186-201 | if a section qualifies, exactly the last qualifying section's link has `active` and `aria-current="page"`, and every other section link has neither; other classes and attributes are kept; if none qualifies, the links are unchanged |
| `ScrollSpy.ActiveLinksIdempotent` | script.js:186-201 | updating twice at the same scroll position is the same as updating once |
| `ScrollSpy.UpdateActiveLink` | script.js:186-201 | the links array afterwards is `ActiveLinks` of the old one |
| `Images.NormaliseImage` | script.js:214-226 | every image gets `img-fluid`; `loading` becomes `lazy` exactly when the image has no `loading`, no `data-critical` and no `c-logo__img`; an existing `loading` and all other attributes are kept |
| `Images.NormaliseIdempotent` | script.js:213-226 | a second pass over a normalised image changes nothing |
| `Images.InitImages` | script.js:213-226 | every image of the array is normalised in place |
| `JsString.Trim` | script.js:441 | trimmed text is a contiguous part of the input with only white space before and after it, and it neither starts nor ends with white space |
| `JsString.TrimEmptyIff` | script.js:441 | a value trims to empty iff every character of it is white space |
| `JsString.RemoveFirst` | script.js:442 | `replace('*', '')` leaves a string without `*` unchanged; otherwise it removes exactly the first `*`, one character |
| `JsString.RemoveFirstMultiset` | script.js:442 | when there is a `*`, the result plus that one `*` has the same characters as the input |
| `JsString.Utf16Length` | script.js:469 | `length` counts UTF-16 code units, between one and two per character; on text without characters above U+FFFF it is the number of characters |
| `FormValidation.RequiredMessage` | script.js:442-443 | the message ends in " ist erforderlich"; before it comes the label without its first `*`, with white space cut from both ends, or "Dieses Feld" when there is no label |
| `FormValidation.Message` | script.js:382-399 | definition, no contract: the message `showError` receives for each rule (the validator table, plus the required and consent texts of script.js:443 and 476); used by `ValidatedOutcome` |
| `FormValidation.Check` | script.js:441-478 | definition, no contract: the rule table in source order; specified by `CheckPassesIff`, `CheckRequiredFirst` and `CheckOrder` |
| `FormValidation.CheckPassesIff` | script.js:438-481 | the ordered rule table reports no failure iff every rule holds on its own |
| `FormValidation.CheckRequiredFirst` | script.js:441-445 | a required field whose value is blank fails the required rule, before any other rule |
| `FormValidation.CheckOrder` | script.js:447-478 | an empty value that is not required passes every rule; a short non-empty textarea fails; an unticked required checkbox fails |
| `FormValidation.ShowError` | script.js:401-422 | the field gets `has-error`, `aria-invalid="true"`, `aria-describedby="<id>-error"` and the given error text |
| `FormValidation.ClearError` | script.js:424-436 | the field loses `has-error`, `aria-invalid`, `aria-describedby` and its error text |
| `FormValidation.Validated` | script.js:438-481 | definition, no contract: cleared first, then marked with the first failing rule's message; specified by `ValidatedOutcome`, `ValidatedFlags`, `ValidatedKeepsRest` and `ValidatedIdempotent` |
| `FormValidation.ValidatedOutcome` | script.js:438-481 | after validation a field passes iff it has no `has-error` and no `aria-invalid`; its error text is the failing rule's message ("<label without first `*`, trimmed> ist erforderlich" or "Dieses Feld ist erforderlich" for the required rule), or none |
| `FormValidation.ValidatedFlags` | script.js:401-436 | `has-error`, `aria-invalid="true"` and `aria-describedby="<id>-error"` are set together or removed together |
| `FormValidation.ValidatedKeepsRest` | script.js:401-436 | validation keeps every other class, every other attribute and every other part of the field |
| `FormValidation.ValidatedIdempotent` | script.js:438-481 | validating a field again changes nothing, because the error is cleared first |
| `FormValidation.ValidateField` | script.js:438-481 | returns true iff the field passes; only that field changes, and it becomes `Validated` of its old value |
| `FormValidation.OnInput` | script.js:493-497 | typing in a field that shows an error validates it again; any other field is left alone |
| `FormValidation.Submit` | script.js:505-521 | every input is validated, none skipped; the form is valid iff all inputs pass; the field to focus is the first failing one, in form order, and it is absent iff the form is valid |

## Left out

- Listener registration and DOM traversal are not modelled: `addEventListener`, `querySelector`/`querySelectorAll`, and the walk up to the enclosing `<a>` (script.js:119-124). Elements are records; the lookups are parameters.
- The early return of `initBurgerMenu` when the toggle, nav or menu is missing (script.js:54) is not modelled. A `NavMenu` stands for a page on which all three exist.
- `nav.contains` and `toggle.contains` become the `Target` of a click. A nav link counts as inside the nav or not; a toggle click counts as inside the toggle.
- `debounce`, `throttle` and every timer or animation-frame path are timing, not decision logic. This covers the reveal animation, ripple removal, toast dismissal, and the submit spinner, reset, notification and redirect (script.js:524-554).
- The intersection observers (script.js:238-269, 355-368) and the count-up frames (script.js:331-353) are browser callbacks and floating point. The ripple geometry and the scroll offsets are floating-point layout.
- Section tops and `pageYOffset` are integers here. `pageYOffset` can be fractional in a browser.
- The three validator regular expressions (script.js:384, 388, 392) are the predicates of `Patterns`. The index-file pattern (script.js:137) is the boolean `currentIsIndexFile`. Their exact languages are not modelled.
- `querySelector` can throw on a fragment that is not a valid selector, for example a nav link whose href is `#`. Throwing is not modelled: `hasTarget`/`hasElement` only say whether an element is found.
- The error span is modelled as the field's own error text (`Field.error`). The source finds the span by the id `input.id + '-error'`, so inputs that share an id, or have none, share one span. This sharing is not modelled.
- The submit listener's `preventDefault`/`stopPropagation` and the `focus()` call are not modelled; `Submit` returns the index to focus.
- The image `error` listener and its placeholder graphic (script.js:228-234) are not modelled.
- `String(text)` coercion in `escapeHtml` is not modelled; the input is a string.
- The toast helper (script.js:621-672), the scroll-to-top button (script.js:560-598) and the privacy-link handler (script.js:600-619) are styling and DOM insertion. The privacy handler's body has no effect.
- The one-shot `__app`/`__xInit` guards (script.js:4-8, 46-47 and the first lines of every initialiser) are trivial flags and are not modelled.
