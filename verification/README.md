# Portfolio page script: verified model of its state machines

`script.js` drives a one-page portfolio. Most of it is browser glue. Four
pieces of it are small state machines and classifiers, and this project
models them in Dafny and proves what they promise:

- **The typing animator** (`typeRole`, module `TypingAnimation`, `typing.dfy`).
  A timer callback types the current role one character per tick (100 ms).
  It pauses 2000 ms on the full role, erases it one character per tick (50 ms),
  pauses 500 ms on the empty text and moves on to the next role, modulo the
  number of roles. The closure is the class `TypingAnimator`. Its `Tick`
  returns the rendered text and the next delay, and is proved equal to the
  pure step functions `Next` and `Render`. The lemmas follow those functions
  over whole traces (`Run`, `Trace`).
- **The scroll classifier** (`updateActiveNavLink` and the two scroll
  thresholds, module `Navigation`, `scroll.dfy`). The current section is the
  last one, in document order, whose window `[top - 100, top - 100 + height)`
  contains the offset. Exactly the links whose href is `#` followed by its id
  are marked active. The navbar compacts strictly beyond 100 px, and the
  back-to-top button shows strictly beyond 500 px. The links are an array of
  hrefs with a parallel array of `active` markers. The class `Chrome` holds
  the page chrome and dispatches one scroll event to the three scroll
  listeners in registration order. The first of these is the throttled
  handler, registered when the script loads.
- **The rate limiters** (`throttle`, `debounce`, module `RateLimit`,
  `ratelimit.dfy`). Each wrapper is a class over its captured variable: the
  `inThrottle` flag, or the pending timeout together with the arguments it
  carries. A timer expiring is an explicit method call. The wrapped function
  is not run; its runs are recorded in order. The lemmas are stated over
  event sequences folded by `ThrottleRun` and `DebounceRun`. Timer delays (`limit`, `wait`) are returned by the call that schedules the timer.
- **The Konami buffer** (module `Konami`, `konami.dfy`). Each keydown pushes
  the key code, then calls `splice(-11, length - 10)`, then tests whether the
  digits of the code occur in the digits of the buffer. `Array.prototype.splice`,
  `join('')` on numbers and `String.prototype.indexOf` are modelled with their
  JavaScript meaning. That includes the clamping of a negative splice start and
  of the delete count.

Two details of the code are easy to misread, and the model follows the code:

- When no section window contains the offset, `currentSection` is `''`, so
  every marker is cleared rather than kept. A link whose href is a bare `#`
  would then be the one marked active (`NoMatchClearsMarks`).
- Both thresholds are strict: at exactly 100 px the navbar is not compacted,
  and at exactly 500 px the button is hidden (`ThresholdsIndependent`).

`UpdateActiveNavLink` is called by two scroll listeners, one throttled and one
not. Its postcondition does not mention the markers from before the call, so
repeating it with the same offset changes nothing. `Chrome.OnScroll` shows
that the markers end up the same whether or not the throttled call ran.

## Model

| member | source | states |
|---|---|---|
| TypingAnimation.Substring | script.js:180-184 | `substring` clamps both bounds to the string and yields the slice between them: with bounds in order inside the string it is exactly `s[start..end]`; a start below 0 counts as 0 and an end beyond the string as its length; reversed bounds are swapped; with both bounds at most 0 it is empty |
| TypingAnimation.NextRoleIsModulo | script.js:194 | the next role index is `(roleIndex + 1) % roles.length` and stays a valid index |
| TypingAnimation.Next | script.js:176-196 | one tick keeps the role index inside the role list |
| TypingAnimation.Run | script.js:198 | any number of rescheduled ticks keeps the role index inside the role list |
| TypingAnimation.Trace | script.js:198 | n ticks render exactly n frames |
| TypingAnimation.Render | script.js:179-196 | what one tick shows and the delay it schedules: the next prefix of the role, with 100 ms typing, 50 ms deleting, 2000 ms on the full role and 500 ms on the empty text; its properties are stated by `TickKeepsInv`, `TypingTick` and `DeletingTick` |
| TypingAnimation.TypingFrames | script.js:183-191 | typing from c characters renders one frame per missing character |
| TypingAnimation.DeletingFrames | script.js:179-195 | erasing from c characters renders one frame per character |
| TypingAnimation.TypingFramesAt | script.js:184-191 | the k-th typing frame shows the first c + k + 1 characters, with the 2000 ms pause exactly on the full role and 100 ms otherwise |
| TypingAnimation.DeletingFramesAt | script.js:180-195 | the k-th erasing frame shows the first c - 1 - k characters, with the 500 ms pause exactly on the empty text and 50 ms otherwise |
| TypingAnimation.RolesAreOk | script.js:161-166 | the fixed role list is non-empty and has no empty role |
| TypingAnimation.TickKeepsInv | script.js:176-196 | a tick keeps `roleIndex < roles.length`, keeps `0 <= charIndex <= role length`, leaves something to erase while deleting and something to type while typing, and renders exactly `role[..charIndex]` of the new charIndex |
| TypingAnimation.TypingTick | script.js:183-191 | a typing tick adds one character and shows it; it switches to deleting with a 2000 ms pause exactly when the role is complete, and otherwise asks for 100 ms |
| TypingAnimation.DeletingTick | script.js:179-196 | a deleting tick removes one character and shows the rest; exactly when the text becomes empty it stops deleting, advances to `(roleIndex + 1) % roles.length` and asks for 500 ms; otherwise it asks for 50 ms on the same role |
| TypingAnimation.RunKeepsInv | script.js:171-198 | every state reached by any number of ticks satisfies the invariant |
| TypingAnimation.TypingPhase | script.js:183-191 | typing from c characters reaches the full role in `length - c` ticks, rendering the typing frames in order |
| TypingAnimation.DeletingPhase | script.js:179-196 | deleting from c characters empties the role in c ticks, then hands over to the next role with nothing typed |
| TypingAnimation.RoleCycle | script.js:176-198 | from role i with nothing typed, 2·length ticks type the whole role and then erase it completely, and only then does role `(i + 1) mod roles.length` start, from its first character |
| TypingAnimation.PassFrom | script.js:189-196 | from role i with nothing typed, the rest of the pass returns to role 0 with nothing typed |
| TypingAnimation.RunRepeats | script.js:198 | a state the self-rescheduling callback returns to after p ticks recurs after every multiple of p ticks |
| TypingAnimation.RotationRepeats | script.js:189-198 | after k full passes (k times the ticks of one pass, two per character of every role) the animator is back at its start state: the rotation cycles forever |
| TypingAnimation.TwoRoleScenario | script.js:176-198 | with roles "A" and "BB", the first four ticks show "A" (2000 ms), "" (500 ms), "B" (100 ms), "BB" (2000 ms) |
| TypingAnimation.TypingAnimator.constructor | script.js:171-174 | the animator starts at role 0, with nothing typed, typing, at speed 100 |
| TypingAnimation.TypingAnimator.Tick | script.js:176-199 | one callback keeps the invariant, moves the state as `Next` and returns the frame of `Render`; the text is the prefix of the old role up to the new charIndex, and `typingSpeed` is the returned delay |
| TypingAnimation.InitializeTypingAnimation | script.js:160-203 | without a display target nothing starts; otherwise a fresh animator on the four fixed roles, at the start state, with its first tick after 1000 ms |
| Navigation.Covers | script.js:143-146 | a section covers the offset when the offset lies in `[top - 100, top - 100 + height)`; used by `ActiveSectionIsLastCovering` |
| Navigation.ActiveSection | script.js:141-149 | the reference definition of the current section, scanning from the last section back; characterised by `ActiveSectionIsLastCovering` and computed by the loop of `CurrentSection` |
| Navigation.ActiveSectionIsLastCovering | script.js:141-149 | the current section is the id of the last section whose window contains the offset, `''` when none does, and always either `''` or the id of a covering section |
| Navigation.Marks | script.js:151-156 | a link is marked active exactly when its href equals `#` followed by the current section |
| Navigation.CurrentSection | script.js:141-149 | the scan over the sections computes exactly the current section |
| Navigation.UpdateActiveNavLink | script.js:137-157 | afterwards link k is active exactly when its href is `#` followed by the current section, whatever the markers were before |
| Navigation.NoMatchClearsMarks | script.js:141-156 | with no covering section, the only links left active are those whose href is a bare `#` |
| Navigation.AtMostOneActive | script.js:151-156 | with distinct hrefs, at most one link is active |
| Navigation.NavbarScrolled | script.js:101 | the navbar test: strictly beyond 100 px; stated by `ThresholdsIndependent`, `Snapshot` and `NavbarScenario` |
| Navigation.ScrollTopVisible | script.js:377 | the back-to-top test: strictly beyond 500 px; stated by `ThresholdsIndependent`, `Snapshot` and `ScrollTopScenario` |
| Navigation.ThresholdsIndependent | script.js:376-382 | the button shows only when the navbar is compacted; offsets in (100, 500] compact the navbar without showing the button; neither marker is set at exactly its threshold (the navbar test at script.js:101 against the button test cited here) |
| Navigation.Snapshot | script.js:100-108 | the navbar is compacted exactly beyond 100 px, the button shows exactly beyond 500 px, and the current section is empty when nothing covers the offset (the button test is at script.js:377 and the section choice at script.js:141-149) |
| Navigation.NavbarScenario | script.js:100-105 | the navbar is not compacted at 0 px, and is compacted at 150 px and at 600 px |
| Navigation.ScrollTopScenario | script.js:376-382 | the back-to-top button is hidden at 0 px and at 150 px, and shows at 600 px |
| Navigation.Chrome.constructor | script.js:95-97 | a fresh page has no markers set, and its throttle has its flag clear and has run nothing |
| Navigation.Chrome.OnScroll | script.js:100-108 | after one scroll event, through the throttled handler and the two plain listeners, the navbar marker, the button marker and the link markers are those of the new offset, whether or not the throttled update ran; the throttle ran it exactly when its flag was clear (the throttled handler is at script.js:455-457 and 466, and the button listener at script.js:376-382) |
| Navigation.Chrome.OnThrottleTimer | script.js:448 | the throttle's timer clears its flag and changes no marker |
| RateLimit.ThrottleStep | script.js:445-448 | one event for throttle: a call runs exactly when the flag is clear and always leaves it set; the timer clears it; `Throttle.Call` and `Throttle.Expire` are proved to follow it |
| RateLimit.ThrottleRun | script.js:440-451 | the flag and the runs after a sequence of events, in order; its promises are `ThrottleDropsWhileSet`, `ThrottleBurst`, `ThrottleSpaced` and `ThrottleRunBound` |
| RateLimit.ThrottleDropsWhileSet | script.js:445-449 | while the flag is set, calls are dropped, not queued: nothing runs and the flag stays set |
| RateLimit.ThrottleBurst | script.js:445-449 | a burst of calls within one interval runs exactly once, with the first call's arguments |
| RateLimit.ThrottleSpaced | script.js:445-448 | calls whose timers expire in between all run, in order, with their own arguments |
| RateLimit.ThrottleRunBound | script.js:445-448 | only the timer clears the flag: at most one run before the first expiry (none if the flag starts set) and one per expiry after it, and a non-empty event sequence with no expiry leaves the flag set |
| RateLimit.Throttle.constructor | script.js:440-441 | a new wrapper has its flag clear and has run nothing |
| RateLimit.Throttle.Call | script.js:442-449 | a call runs the function with its arguments exactly when the flag was clear, leaves the flag set, and schedules the clearing timer `limit` ms later exactly when it ran |
| RateLimit.Throttle.Expire | script.js:448 | the timer clears the flag and runs nothing |
| RateLimit.DebounceStep | script.js:430-437 | one event for debounce: a call replaces the pending run with its own arguments and runs nothing; the timer runs the pending arguments once; `Debounce.Call` and `Debounce.Fire` are proved to follow it |
| RateLimit.DebounceRun | script.js:428-438 | the pending run and the runs after a sequence of events, in order; its promises are `DebouncePendingIsLast`, `DebounceBurst`, `DebounceSplit` and `DebounceRunBound` |
| RateLimit.DebouncePendingIsLast | script.js:435-436 | a burst of calls runs nothing and leaves exactly one run pending, carrying the last call's arguments |
| RateLimit.DebounceBurst | script.js:430-437 | a burst followed by the timer firing runs the function exactly once, with the last call's arguments, and leaves nothing pending |
| RateLimit.DebounceSplit | script.js:428-438 | processing two event sequences one after the other is processing their concatenation |
| RateLimit.DebounceRunBound | script.js:431-434 | every run is caused by a timer firing: never more runs than expiries |
| RateLimit.Debounce.constructor | script.js:428-429 | a new wrapper has nothing pending and has run nothing |
| RateLimit.Debounce.Call | script.js:430-437 | a call replaces any pending run with one carrying its own arguments, to fire `wait` ms later, and runs nothing |
| RateLimit.Debounce.Fire | script.js:431-434 | the pending timer runs the function once, with the arguments it carries, and nothing is left pending |
| Konami.LastN | script.js:506-511 | the last n elements, in order (all when there are fewer) |
| Konami.SpliceKeepsLastTen | script.js:510-511 | on a buffer of at most ten codes, push then `splice(-11, length - 10)` leaves exactly the last ten codes |
| Konami.SpliceOnLongBufferCutsMiddle | script.js:511 | on a longer buffer the same splice cuts codes out of the middle instead, so the bound of ten matters |
| Konami.LastNOfPush | script.js:510-511 | keeping the last ten one key at a time is keeping the last ten of the whole history |
| Konami.PushSpliceKeepsLastTen | script.js:510-511 | a keydown on the last ten codes of a history leaves the last ten codes of the extended history |
| Konami.NumberToString | script.js:513 | a key code's text is a non-empty run of decimal digits: exactly one digit for codes below ten, and no leading zero when it has more than one |
| Konami.NumberToStringRoundTrip | script.js:513 | a key code's decimal text reads back as the same number |
| Konami.Join | script.js:513 | the codes' decimal texts one after another, with no separator; its structure is stated by `JoinAppend` |
| Konami.JoinAppend | script.js:513 | joining a concatenation of buffers is concatenating their joined texts |
| Konami.IndexOfFrom | script.js:513 | the search of `indexOf` from a position inside the string returns the first occurrence at or after it, or -1 exactly when there is none |
| Konami.IndexOf | script.js:513 | `indexOf` is non-negative exactly when the text occurs somewhere |
| Konami.Triggered | script.js:513 | the trigger: the code's joined digits occur in the buffer's joined digits; stated by `LastTenKonamiTriggers`, `LooseTrigger` and `KonamiBuffer.KeyDown` |
| Konami.LastTenKonamiTriggers | script.js:507-513 | when the last ten keys are the code, the buffer is the code and the trigger fires |
| Konami.PrefixedFirstCodeOccurs | script.js:513 | a buffer whose first code's text ends with the text of the code's first element, and whose other codes are the code's, contains the code's digits |
| Konami.LooseTrigger | script.js:507-513 | digit containment is looser than equality: the buffer 138, 38, 40, 40, 37, 39, 37, 39, 66, 65 is not the code, yet it fires |
| Konami.KonamiBuffer.constructor | script.js:506 | the buffer starts empty |
| Konami.KonamiBuffer.KeyDown | script.js:509-513 | after each keydown the buffer is the last min(n, 10) key codes of the history, in order, so it holds at most ten; it activates exactly when the code's digits occur in the buffer's digits |

## Left out

- The page is reduced to values. Sections are (id, offsetTop, offsetHeight) triples with integer geometry, and links are their href strings. Rendered text is returned, not written into an element. Class toggles are booleans. No DOM, styles or layout are modelled.
- Real time is not modelled: `setTimeout` delays are returned or stored as numbers, and a timer expiring is an explicit method call.
- The functions wrapped by `throttle` and `debounce` are not executed; their runs are recorded with their arguments. `this` (the context passed by `apply`) is not modelled.
- Role lengths and `substring` positions count Dafny characters (Unicode code points), while JavaScript counts UTF-16 code units. The two differ only for characters outside the Basic Multilingual Plane, and the four fixed roles are ASCII.
- `String.prototype.indexOf` is modelled for start positions inside the string, which is all the source uses (it passes none). The clamping of a start position beyond the end is not modelled.
- Navigation.Chrome.constructor: the markers are taken to be clear before the first scroll event. Their initial classes come from the page's HTML, which is not modelled. Every scroll event overwrites all of them.
- RateLimit.Throttle.Call: the wrapped function is taken to return normally. If it throws at script.js:446, `inThrottle` stays clear and no timer is scheduled, so later calls are not throttled. The model always sets the flag after a run.
- Scroll offsets are integers; fractional `window.scrollY` values are not modelled.
- Navigation.UpdateActiveNavLink: a link without an href attribute (where `getAttribute` gives `null`) is not modelled; every link has an href string.
- Konami.KonamiBuffer.KeyDown: key codes are non-negative integers; other `keyCode` values are not modelled. The effects of activation (rotation, `alert`, the reset timer) are left out as page I/O.
- The resize handler's body (`AOS.refresh`) is a third-party library call. Only the debounce wrapper around it is modelled, with generic arguments.
- The display-target guards of the other initializers are page I/O. Only the typing animator's guard is modelled.
- The theme toggle, the contact form, the counter animation (floating-point steps and animation frames), the IntersectionObserver one-shots, smooth scrolling, the loader, the nav-link click and collapse handling, AOS and `console` output are outside the modelled core.
