# Portfolio page script: decision logic in Dafny

The portfolio site's `script.js` is mostly DOM glue, but its event handlers
contain small pieces of decision logic. This project pulls them out as
immutable datatypes and pure transition functions and proves what they do:

- **Theme** (`theme.dfy`): the light/dark choice on page load, from the
  stored `theme` value and the system colour-scheme preference, and the
  click handler of both theme buttons, which flips the theme and stores
  `"light"` or `"dark"`.
- **Mobile menu** (`mobilemenu.dfy`): a state machine over the menu's
  `open` class, its `hidden` flag, the toggle's `aria-expanded`, the body's
  `overflow`, the scroll listener's `lastY`, and the number of deferred
  "hide if still closed" callbacks waiting to run. Events are clicks (with
  the element listener running before the document listener, as bubbling
  does), key presses, scroll positions and one deferred callback firing.
- **Active links** (`activelinks.dfy`): which anchors are navigation links,
  and how a batch of visibility entries sets each link's `active` class.
- **Contact form** (`contactform.dfy`, on top of `jstext.dfy`): the three
  field checks, the email pattern `^\S+@\S+\.\S+$`, and the submit
  handler's error texts, status line and form reset. `jstext.dfy` holds the
  JavaScript string semantics they need: missing values, the ECMAScript
  WhiteSpace and LineTerminator characters shared by `trim` and `\S`,
  `trim` itself, and `.length` counted in UTF-16 code units.
- **Starfield** (`starfield.dfy`): the particle count for a viewport.
- **Greeting rotator** (`hellorotator.dfy`): the greeting shown at each tick.
- **Project cards** (`projectcards.dfy`): which links a card carries.

Timers are discrete events. The browser's answers (stored value, media
query, click target, key, scroll position, intersection entries, form
entries, viewport size) are inputs.

The scroll listener only records the scroll position while the menu is
open. So the first scroll after opening is measured from a position that
may be stale. `MobileMenu.StaleScrollOriginCloses` shows the effect: scroll
to 500 while closed, open, scroll one pixel, and the menu closes. The model
keeps this behaviour as written.

## Model

| member | source | states |
|---|---|---|
| `Theme.InitialLight` | script.js:2-6 | a stored `"light"` always gives light; any other non-empty stored value (so `"dark"`) gives dark whatever the system prefers; with nothing or `""` stored, light exactly when the system prefers light |
| `Theme.Load` | script.js:2-6 | the loaded page keeps the stored value and shows the theme chosen from it and the preference |
| `Theme.Toggle` | script.js:11-14 | a click flips the light flag and stores `"light"` exactly when the page is now light and `"dark"` exactly when it is now dark |
| `Theme.ToggleTwiceRestoresTheme` | script.js:11-14 | two clicks give back the original theme |
| `Theme.ClicksParity` | script.js:11-14 | after n clicks the theme is flipped exactly when n is odd |
| `Theme.ReloadKeepsChosenTheme` | script.js:2-14 | after at least one click, reloading the page shows the theme the clicks left, whatever the system preference |
| `MobileMenu.Initial` | script.js:65 | the start state is closed and hidden with no deferred hides, and the scroll origin is the page's starting position |
| `MobileMenu.OpenMenu` | script.js:27-33 | opening makes the menu open and not hidden, sets `aria-expanded` to `"true"` and overflow to `"hidden"`, and leaves `lastY` and the deferred hides alone |
| `MobileMenu.CloseMenu` | script.js:35-42 | closing clears `open`, sets `aria-expanded` to `"false"` and overflow to `""`, leaves `hidden` alone and schedules exactly one deferred hide |
| `MobileMenu.ToggleClicked` | script.js:45-47 | the toggle listener flips whether the menu is open |
| `MobileMenu.DocumentClicked` | script.js:53-57 | the document click listener does nothing while closed or for a click inside the menu or toggle, and closes an open menu on a click outside both |
| `MobileMenu.KeyPressed` | script.js:60-62 | Escape closes an open menu; any other key, or any key while closed, changes nothing |
| `MobileMenu.Scrolled` | script.js:65-71 | while closed a scroll changes nothing, `lastY` included; while open it records the new position; a move of at most 10 from `lastY` changes nothing else, and a longer one closes the menu |
| `MobileMenu.HideTimerFired` | script.js:41 | a deferred hide consumes one pending callback and leaves the menu hidden exactly when it was hidden already or is not open; with none pending nothing changes; nothing else is touched |
| `MobileMenu.Clicked` | script.js:45-57 | a click runs the element's own listener and then the document listener: on the toggle it is the toggle listener alone, on a menu link it closes, inside the menu it changes nothing, and outside it is the document listener alone |
| `MobileMenu.ToggleButtonFlips` | script.js:44-57 | a click on the toggle opens a closed menu and closes an open one, even after the document listener has run |
| `MobileMenu.MenuLinkCloses` | script.js:50-57 | tapping a menu link always ends in the closed state |
| `MobileMenu.OutsideAndInsideClicks` | script.js:53-57 | an outside click closes an open menu; a click inside the menu, not on a link, changes nothing |
| `MobileMenu.ClosedMenuIgnoresCloseTriggers` | script.js:53-71 | while the menu is closed, outside or inside clicks, key presses and scrolls leave the whole state unchanged |
| `MobileMenu.StepKeepsConsistent` | script.js:27-71 | every event preserves consistency: never open and hidden at once, `aria-expanded` and overflow always match `open`, and closed with nothing pending means hidden |
| `MobileMenu.RunKeepsConsistent` | script.js:27-71 | any sequence of events preserves consistency |
| `MobileMenu.ClosedAndSettledIsHidden` | script.js:35-47 | from the page's start state, after any events, a closed menu whose deferred hides have all run is hidden |
| `MobileMenu.LastYOnlyMovesWhileOpen` | script.js:65-71 | the remembered scroll position changes only on a scroll event while the menu is open, and then becomes that event's position |
| `MobileMenu.StaleScrollOriginCloses` | script.js:65-71 | scrolling to 500 while closed, opening, then scrolling one pixel closes the menu |
| `ActiveLinks.SelectNavLinks` | script.js:76 | the navigation links are exactly the anchors whose `href` starts with `#` and has a non-empty fragment, each kept as many times as it occurs (desktop and mobile navs both link to each section) |
| `ActiveLinks.SelectNavLinksKeepsOrder` | script.js:76 | selection keeps document order: selecting from two runs of anchors joined is joining the selections |
| `ActiveLinks.Highlight` | script.js:82 | for section `id`, every link keeps its `href` and is active exactly when its `href` is `"#" + id` |
| `ActiveLinks.OnEntry` | script.js:81-83 | an entry that is not intersecting leaves the links alone; an intersecting one keeps every href and makes active exactly the links whose href is `"#"` followed by its id |
| `ActiveLinks.OnEntries` | script.js:79-84 | after a batch of entries the hrefs are unchanged; with no intersecting entry the links are untouched; otherwise exactly the links pointing at the last intersecting entry's id are active |
| `ActiveLinks.HighlightOverwrites` | script.js:80-84 | highlighting for one section and then another is the same as highlighting only for the second |
| `JsText.Falsy` | script.js:4 | `!v` on a value that may be missing: true exactly for a missing value and for `""` |
| `JsText.IsWhitespace` | script.js:208-210 | the characters `trim` removes and `\s` matches: the ECMAScript WhiteSpace and LineTerminator code points |
| `JsText.WhitespaceClass` | script.js:209-210 | every whitespace character lies in the Basic Multilingual Plane; letters, digits, `@` and `.` are never whitespace |
| `JsText.Trim` | script.js:208-210 | `trim` never lengthens its input |
| `JsText.TrimStart` | script.js:208-210 | the forward scan of `trim` stops at the first non-whitespace character at or after its start, passing only whitespace, or at the end when there is none |
| `JsText.TrimEnd` | script.js:208-210 | the backward scan of `trim` stops just after the last non-whitespace character above its lower bound, passing only whitespace |
| `JsText.TrimCharacterized` | script.js:208-210 | `trim` returns the slice of the input between all its leading and all its trailing whitespace: empty exactly for all-whitespace input, and otherwise starting and ending on non-whitespace |
| `JsText.TrimIgnoresPadding` | script.js:208-210 | adding whitespace around a string does not change its trimmed form |
| `JsText.TrimIdempotent` | script.js:208-210 | trimming a trimmed string changes nothing |
| `JsText.Utf16Length` | script.js:208-210 | `.length` is between the number of characters and twice that |
| `JsText.Utf16LengthBmp` | script.js:208-210 | `.length` equals the number of characters exactly when none lies outside the Basic Multilingual Plane |
| `JsText.Utf16LengthAppend` | script.js:208-210 | `.length` adds up over concatenation, so with the one- and two-unit count per character it is fixed for every text |
| `JsText.TrimmedUtf16LengthAtLeast` | script.js:208-210 | for any text, the trimmed `.length` is at least n exactly when some stretch from one non-whitespace character to another takes at least n code units |
| `JsText.TrimmedLengthAtLeast` | script.js:208-210 | for text within the Basic Multilingual Plane, the trimmed length is at least n exactly when two non-whitespace characters lie at least n - 1 positions apart |
| `ContactForm.EmailPattern` | script.js:209 | the language of `^\S+@\S+\.\S+$`: no whitespace, an `@` after at least one character, a `.` at least two positions after the `@`, and at least one character after the `.` |
| `ContactForm.EmailPatternExamples` | script.js:209 | `a@b.c` matches; `@b.c`, `a@.c`, `a@b.` and `a @b.c` do not |
| `ContactForm.NameInvalid` | script.js:208 | a name is rejected when missing, empty, or shorter than two UTF-16 code units once trimmed |
| `ContactForm.EmailInvalid` | script.js:209 | an email is rejected when missing, empty, or not matching the pattern |
| `ContactForm.MessageInvalid` | script.js:210 | a message is rejected when missing, empty, or shorter than ten UTF-16 code units once trimmed |
| `ContactForm.MatchEmail` | script.js:209 | a one-pass scan accepts exactly the strings matched by `^\S+@\S+\.\S+$`: no whitespace, an `@` at position 1 or later, then a `.` at least two positions further on with at least one character after it |
| `ContactForm.Validate` | script.js:205-210 | each field's error text is its own message exactly when that field is invalid and empty otherwise, and depends on that field alone |
| `ContactForm.Submit` | script.js:202-216 | the status is cleared first; the form is reset exactly when no field is invalid, exactly when all error texts are empty; with an error the status stays `""`; without one it goes `""`, `"Sending..."`, `"Message sent! I will reply soon."` |
| `ContactForm.NameCheckIgnoresPadding` | script.js:208 | whitespace around a name never changes whether it is accepted |
| `ContactForm.MessageCheckIgnoresPadding` | script.js:210 | whitespace around a message never changes whether it is accepted |
| `ContactForm.NameAcceptedIff` | script.js:208 | a name within the Basic Multilingual Plane is accepted exactly when it has two non-whitespace characters |
| `ContactForm.MessageAcceptedIff` | script.js:210 | a message within the Basic Multilingual Plane is accepted exactly when its outermost non-whitespace characters span at least ten positions |
| `ContactForm.NameAcceptedIffCodeUnits` | script.js:208 | any name is accepted exactly when some stretch between two non-whitespace characters takes at least two code units |
| `ContactForm.MessageAcceptedIffCodeUnits` | script.js:210 | any message is accepted exactly when some stretch between two non-whitespace characters takes at least ten code units |
| `ContactForm.SurrogatePairsCountTwice` | script.js:208-210 | an emoji counts as two: four emoji and a letter are rejected as a message, four emoji and two letters are accepted, one emoji alone is a valid name |
| `ContactForm.FourFacesAndTwoLetters` | script.js:210 | four emoji and two letters have `.length` ten |
| `Starfield.ParticleCount` | script.js:164 | the count is at most 160, its share of area (12000 per particle) fits in the viewport, and one more particle would not fit unless the cap is reached |
| `Starfield.ParticleCountMonotone` | script.js:164 | a viewport with at least the area of another never gets fewer particles |
| `Starfield.NoParticlesIff` | script.js:164 | there are no particles exactly when the area is below 12000 |
| `Starfield.CapReachedIff` | script.js:164 | the count is 160 exactly when the area is at least 1 920 000 |
| `HelloRotator.Greeting` | script.js:108 | the counter always selects an element of the greeting list, and during the first cycle counter `i` shows greeting `i` |
| `HelloRotator.ShowHello` | script.js:104-111 | each show step displays a greeting from the list, greeting `i` while `i` is within the first cycle, and advances the counter by one |
| `HelloRotator.GreetingInOrder` | script.js:108-111 | in every cycle the greetings are shown in list order starting from the first: show `k` of cycle `q` displays greeting `k` |
| `HelloRotator.GreetingsRepeat` | script.js:108 | the greeting sequence repeats with a period equal to the list's length |
| `HelloRotator.EveryGreetingWithinOneCycle` | script.js:108-113 | any run of consecutive shows as long as the list displays every greeting |
| `HelloRotator.HellosDistinct` | script.js:96-100 | the shipped list has fifteen greetings, no two alike |
| `HelloRotator.ConsecutiveShowsDiffer` | script.js:108-111 | with distinct greetings, no text repeats within as many consecutive shows as there are greetings |
| `HelloRotator.ShippedRotationNeverRepeatsWithinCycle` | script.js:96-111 | any fifteen consecutive shows of the page's list display fifteen different texts |
| `ProjectCards.IsRealLink` | script.js:278-279 | a link is rendered when its value is truthy and not `"#"` |
| `ProjectCards.CardLinks` | script.js:277-281 | "View Code" comes first and is present exactly when `code` is set, non-empty and not `#`; "Live Demo" comes just before the last link and is present exactly under the same rule for `demo`; "Learn More" to `project.html?slug=<slug>` is always present and always last |

## Left out

- Element lookup and the missing-element guards: the model assumes the toggle button, the menu, the status line and the error elements all exist. The early returns in `openMenu`/`closeMenu` and the `if (statusEl)`/`if (el)` checks are not modelled.
- The markup's own starting values are not in the script. `MobileMenu.Initial` assumes the menu starts hidden with `aria-expanded="false"`.
- Theme.Load: assumes the body starts without the `light` class. The script only ever adds that class on load, so a page whose markup already carries it would start light whatever is stored.
- `localStorage` and `matchMedia` are inputs. A storage failure is not modelled.
- Visibility geometry: the observer's root margin and threshold are browser layout. Only "this entry is intersecting, with this id" is an input.
- The `sections.length` gate that decides whether the observer is installed is left out. It depends on `querySelector` accepting each `href` as a CSS selector, which is selector parsing.
- ActiveLinks.SelectNavLinks: `a.hash` comes from URL parsing; the model uses "starts with `#` and has more than one character".
- Timing: the 180 ms hide delay, the 800 ms simulated send, the 2200/4000 ms rotator interval and `requestAnimationFrame` are discrete steps or left out.
- ContactForm.Submit: one submission runs to completion as a single step, so overlapping submissions are not modelled. The handler is `async`: a second submit made while a first waits out the simulated send clears the status and shows its own errors, and the first then still writes the sent notice and resets the form. The model does not cover that interleaving.
- Scroll positions are integers here. A browser may report fractional `scrollY`.
- Starfield internals: random particle generation, `devicePixelRatio` canvas sizing, drawing, and the per-frame opacity twinkle (floating point). The twinkle flips direction only after opacity has left [0.2, 1], so opacity can overshoot that range. No bound is claimed.
- Starfield.ParticleCount: uses exact integer arithmetic on integer viewport sizes. The script divides in floating point, which agrees for every area a screen can have.
- HelloRotator.ShowHello: the JavaScript counter is a double; past 2^53 it stops advancing exactly. The model's counter is unbounded.
- ContactForm.Submit: the error elements are cleared and then set in the same handler. Only their final text is modelled. `form.reset()` is the `formReset` flag, since default field values live in the markup.
- `FormData` with a repeated field name is not modelled: each field carries one value or none.
- Rendering: skill groups, card HTML (image, tags, title, description), the static project and skill tables, and the footer year from the clock.
