# Portfolio site: discrete behaviour of its interactive components

A Dafny model of the logic inside five components of a single-page portfolio
site, separated from React, the DOM and the animation libraries:

- **Contact form** (`contact.dfy`, module `ContactForm`): the three-field
  schema (trim, then required / maximum length / e-mail shape), the per-field
  error map filled from the schema's issues, the field-edit handler, and the
  submit handler with its `isSubmitting` / `isSuccess` flags, one insert per
  accepted submission, the success and failure toasts, and the 3-second
  success timer.
- **Projects carousel** (`projects.dfy`, module `Projects`): the current
  index, next / previous modulo the number of projects, dot selection, and
  the three-card window built by a loop.
- **Preloader** (`preloader.dfy`, module `Preloader`): the timer-stepped
  greeting index, the one-shot completion guard, and the reduced-motion
  shortcut.
- **Header** (`header.dfy`, module `Header`): the scrolled flag and the
  choice of the active navigation link on scroll.
- **Skills timeline** (`skills_timeline.dfy`, module `SkillsTimeline`): the
  active milestone and the explosion / UFO flags derived from scroll
  progress, the bounded trail of dots (append and keep the last 25, ids from a
  post-incremented counter, fade and filter), and the milestone cards'
  opacity, scale and side.

`wrappers.dfy` holds the `Option` type the others share.

How the model stands for what it cannot see:

- The schema library's e-mail check is the parameter `isEmail: string -> bool`,
  a constant of the `Form` object. Its regular expression is not modelled.
  Facts about the empty e-mail assume `isEmail("")` is false.
- `trim` removes exactly the ECMAScript WhiteSpace and LineTerminator code
  points. String length is the length of a `seq<char>`.
- The remote insert is recorded in the log `inserts`. Its outcome arrives
  later as the event `InsertSettled(outcome)`. Toasts are recorded in the
  log `toasts`.
- Each timer firing is an event of its own: the success timer, the
  preloader's step and completion timers, and the trail's fade interval.
  Delays are not modelled.
- Browser measurements are inputs: the page offset, each section's top, the
  UFO's position, and whether the container is mounted.
- Decimal constants and coordinates are `real`.

Behaviour of the code that the model keeps as it is:

- The form keeps two independent flags, `isSubmitting` and `isSuccess`, and
  there is no failed state: after an error, only the toast and the kept
  fields remain.
- Re-entrant submits are not rejected by the handler. The submit button is
  `disabled` while `isSubmitting` holds, so no submit reaches the handler.
  `SubmitEvent` models a submit arriving while a request is in flight as
  doing nothing.
- The schema runs every check of a field. An e-mail that is both malformed
  and over 255 characters gets two issues, and the `forEach` keeps the last
  one. Its inline message is then the length message, not "Invalid email
  address" (`EmailError`).
- Clearing a field's error keeps the key and stores `""` in it, which the
  form renders as no error (`HasError`).
- Under reduced motion, `onComplete` is called on every run of the effect,
  without the guard that the timer path uses. `done` is never set on that
  path. The model counts these calls in `immediateCompletions`.

## Model

| member | source | states |
|---|---|---|
| ContactForm.FormData.Set | src/components/Contact.tsx:64 | the edited field takes the new value and every other field is unchanged |
| ContactForm.Trim | src/components/Contact.tsx:40-42 | JavaScript `trim`, applied to each field before its checks; `TrimSpec` shows it removes exactly the leading and trailing whitespace and `TrimIdempotent` that a second trim changes nothing |
| ContactForm.TrimStartSpec | src/components/Contact.tsx:40-42 | dropping leading whitespace leaves a suffix, drops only whitespace, and leaves no whitespace in front |
| ContactForm.TrimEndSpec | src/components/Contact.tsx:40-42 | dropping trailing whitespace leaves a prefix, drops only whitespace, and leaves no whitespace at the end |
| ContactForm.TrimSpec | src/components/Contact.tsx:40-42 | `trim` returns the middle of the input with only whitespace around it, and the result neither starts nor ends with whitespace |
| ContactForm.TrimIdempotent | src/components/Contact.tsx:40-42 | trimming an already trimmed value changes nothing |
| ContactForm.TrimAllWhitespace | src/components/Contact.tsx:40-42 | a value of whitespace only trims to the empty string, so it fails the required checks |
| ContactForm.TrimExample | src/components/Contact.tsx:40 | " Jane " trims to "Jane" |
| ContactForm.FieldIssues | src/components/Contact.tsx:39-43 | a field's checks report issues about that field only, and report none exactly when the trimmed value meets the field's rule (name 1..100, e-mail shape and at most 255, message 1..1000) |
| ContactForm.Issues | src/components/Contact.tsx:39-43 | the object schema's issue list: the name's issues, then the e-mail's, then the message's; `IssuesOfFailing` and `IssueFields` state that it is empty exactly on valid input and names exactly the failing fields |
| ContactForm.IssuesOfFailing | src/components/Contact.tsx:39-43 | the form's issues are empty exactly when all three fields are accepted, and every issue names a failing field |
| ContactForm.Trimmed | src/components/Contact.tsx:91-93 | `result.data`, the values inserted: each field trimmed; `SafeParse` returns it on success and `ReparseTrimmed` shows it is a fixed point of parsing |
| ContactForm.SafeParse | src/components/Contact.tsx:39-43 | parsing succeeds exactly when all three trimmed fields are accepted and then returns the trimmed values; a rejection carries at least one issue and only issues about failing fields |
| ContactForm.ReparseTrimmed | src/components/Contact.tsx:39-43 | data that passed validation passes again unchanged: the trimmed values are a fixed point |
| ContactForm.ParseExample | src/components/Contact.tsx:39-43 | name " Jane ", e-mail "jane@example.com" and message "Hello there" are accepted and stored as "Jane", "jane@example.com" and "Hello there" |
| ContactForm.FieldErrorMap | src/components/Contact.tsx:77-80 | the `fieldErrors` record the `forEach` builds, one issue after another overwriting its field's entry; its keys and values are stated by `FieldErrorMapKeys` and `FieldErrorMapLast` |
| ContactForm.FieldErrorMapKeys | src/components/Contact.tsx:77-80 | the error map has an entry for exactly the fields some issue is about |
| ContactForm.FieldErrorMapLast | src/components/Contact.tsx:77-80 | a field's entry holds the message of the last issue about that field |
| ContactForm.CollectFieldErrors | src/components/Contact.tsx:77-80 | the `forEach` loop builds the last-message-wins map, whose keys are the fields of the issues |
| ContactForm.IssueFields | src/components/Contact.tsx:39-43 | the form's issues are about exactly the fields that fail after trimming: every failing field is reported, not only the first one |
| ContactForm.RejectedErrorFields | src/components/Contact.tsx:76-82 | after a rejection the error map has an entry for every failing field and none for a passing field |
| ContactForm.NameError | src/components/Contact.tsx:40 | a name that trims to nothing shows "Name is required"; one over 100 characters shows the length message |
| ContactForm.EmailError | src/components/Contact.tsx:41 | an e-mail that fails the shape check shows "Invalid email address" unless it is also over 255 characters, when the length message reported after it wins |
| ContactForm.MessageError | src/components/Contact.tsx:42 | a message that trims to nothing shows "Message is required"; one over 1000 characters shows the length message |
| ContactForm.BadEmailRejected | src/components/Contact.tsx:41 | an e-mail the shape check refuses, or one over 255 characters, rejects the form whatever the other fields hold, and has an error entry |
| ContactForm.HasError | src/components/Contact.tsx:66 | the truthiness test on `errors[id]`, also used to show an error under a field: an entry that holds a non-empty message; `HandleChange` states that an edited field never shows an error afterwards |
| ContactForm.ErrorDescription | src/components/Contact.tsx:110 | the error toast shows the error's message, or "Please try again later." when it has none or an empty one; never an empty description |
| ContactForm.Form.constructor | src/components/Contact.tsx:50-58 | the form starts empty, with no errors, not submitting, not successful, and nothing inserted or shown |
| ContactForm.Form.SubmitDisabled | src/components/Contact.tsx:291 | the submit button is disabled exactly while an insert is awaited |
| ContactForm.Form.HandleChange | src/components/Contact.tsx:60-69 | editing a field changes only that field's value; it clears that field's error if it shows one and leaves every other error, flag and log unchanged |
| ContactForm.Form.SubmitEvent | src/components/Contact.tsx:71-94 | while an insert is in flight a submit changes nothing; a rejected form gets the error map of its issues, with no insert and with `isSubmitting` and the fields unchanged; an accepted form clears the errors, sets `isSubmitting`, and issues exactly one insert of the trimmed values; every insert ever issued holds accepted, trimmed values |
| ContactForm.Form.InsertSettled | src/components/Contact.tsx:96-115 | on acknowledgement the fields reset to "", "", "", `isSuccess` is set, the confirmation toast is shown and one success timer is scheduled; on an error or exception the fields are kept and the error toast shows the error's description; either way `isSubmitting` ends false |
| ContactForm.Form.SuccessTimerFired | src/components/Contact.tsx:106 | the success timer clears `isSuccess` and changes nothing else |
| Projects.Next | src/components/Projects.tsx:100-102 | the next index stays in range: one more, or back to 0 from the last project |
| Projects.Prev | src/components/Projects.tsx:104-106 | the previous index stays in range: one less, or the last project from 0 |
| Projects.PrevNextInverse | src/components/Projects.tsx:100-106 | previous undoes next and next undoes previous |
| Projects.NextTimesModulo | src/components/Projects.tsx:100-102 | k steps forward from i land on (i + k) mod n |
| Projects.FullCycle | src/components/Projects.tsx:100-102 | n steps forward return to the starting project |
| Projects.Carousel.constructor | src/components/Projects.tsx:76 | the carousel starts at index 0 |
| Projects.Carousel.NextProject | src/components/Projects.tsx:100-102 | the next button moves the index to `Next` of the old one and keeps it in range |
| Projects.Carousel.PrevProject | src/components/Projects.tsx:104-106 | the previous button moves the index to `Prev` of the old one and keeps it in range |
| Projects.Carousel.SelectDot | src/components/Projects.tsx:169-172 | a dot click sets the index to exactly that dot's index |
| Projects.Carousel.DotActive | src/components/Projects.tsx:174 | the dot whose index equals `currentIndex` is the highlighted one, and a highlighted dot is always one of the project dots |
| Projects.Carousel.VisibleProjects | src/components/Projects.tsx:108-115 | the window has exactly 3 cards; card k has position k and shows the project at (current + k) mod n; the centre card shows the next project; with 3 projects the window is the list rotated to start at the current one |
| Projects.WindowIsRotation | src/components/Projects.tsx:108-115 | with exactly three projects, the window's projects are the list rotated to start at the current index |
| Projects.CatalogWindowShowsEach | src/components/Projects.tsx:20-73 | with the site's three projects, the window shows each project exactly once |
| Preloader.Sequencer.Current | src/components/Preloader.tsx:80 | the greeting on screen is always one of the twelve greetings: the index never leaves the list |
| Preloader.Sequencer.constructor | src/components/Preloader.tsx:24-28 | the index starts at 0 with nothing done and the guard down; the first effect run either completes at once under reduced motion or schedules the first step |
| Preloader.Sequencer.RunEffect | src/components/Preloader.tsx:31-57 | an effect run clears the old timer; under reduced motion it calls `onComplete` at once and changes neither index, `done` nor the guard; otherwise it schedules the step timer before the last greeting and the completion timer at it |
| Preloader.Sequencer.TimerFired | src/components/Preloader.tsx:38-49 | the step timer raises the index by exactly one and reschedules; the completion timer sets `done` and the guard, and calls `onComplete` only if the guard was down, so the timer path calls it at most once and `done` never goes back to false |
| Preloader.Sequencer.CallbackChanged | src/components/Preloader.tsx:57 | a new `onComplete` re-runs the effect without touching the index, `done` or the guard |
| Preloader.Sequencer.ReducedMotionChanged | src/components/Preloader.tsx:33-36 | switching to reduced motion cancels the timer and calls `onComplete` at once; switching back schedules the timer for the current index |
| Header.Reached | src/components/Header.tsx:37-39 | a link's section exists and its top is above 160; `LastReachedSpec` states that the active link is the last such link |
| Header.LastReached | src/components/Header.tsx:36-43 | the link the scroll handler activates: the last link whose section exists and whose top is above 160; the index it returns is a valid link position |
| Header.LastReachedSpec | src/components/Header.tsx:36-43 | the chosen link is one whose section exists and whose top is above 160, with no such link after it in menu order; nothing is chosen only when no link qualifies |
| Header.ScanReversed | src/components/Header.tsx:36-43 | the reversed loop, skipping links whose section is missing and stopping at the first that qualifies, finds the last qualifying link |
| Header.Header.constructor | src/components/Header.tsx:13-14 | `active` starts as "home" and the header is not scrolled |
| Header.Header.OnScroll | src/components/Header.tsx:33-44 | `isScrolled` holds exactly when the offset exceeds 40; `active` becomes the id of the last qualifying link, or keeps its old value when none qualifies, and is always one of the five link ids |
| SkillsTimeline.MilestoneIndex | src/components/SkillsTimeline.tsx:231 | the active milestone is the sixth of the progress range, capped at 5, one past the last milestone |
| SkillsTimeline.MilestoneIndexRange | src/components/SkillsTimeline.tsx:231 | for progress in [0, 1] the active milestone is 0 to 5; it is 5, one past the last milestone, exactly from progress 5/6 on, and below that progress lies in the milestone's sixth of the range |
| SkillsTimeline.MilestoneIndexMonotonic | src/components/SkillsTimeline.tsx:231 | more progress never gives an earlier milestone |
| SkillsTimeline.ShowExplosion | src/components/SkillsTimeline.tsx:235 | the explosion shows exactly when progress exceeds 0.88; `OnScrollChange` states that `showExplosion` equals it and `ufoVisible` its negation |
| SkillsTimeline.MovedEnough | src/components/SkillsTimeline.tsx:261-266 | the UFO is more than 2 away from the last dot, stated as squared distance above 4; `OnScrollChange` states that a dot is appended only when it holds |
| SkillsTimeline.KeepLast | src/components/SkillsTimeline.tsx:275 | `.slice(-25)` returns the last min(length, 25) elements, as a suffix |
| SkillsTimeline.AppendKeepsOrder | src/components/SkillsTimeline.tsx:274-277 | after an append the trail has 1 to 25 dots, the new dot is last, and the dots before it are the newest of the old trail in their old order |
| SkillsTimeline.KeepLastIncreasing | src/components/SkillsTimeline.tsx:275 | keeping the last dots keeps ids strictly increasing |
| SkillsTimeline.AppendIncreasing | src/components/SkillsTimeline.tsx:267-277 | appending a dot whose id exceeds every id in the trail keeps ids strictly increasing and opacities in (0, 1], and no id exceeds the new one |
| SkillsTimeline.Dimmed | src/components/SkillsTimeline.tsx:289 | a dot with opacity lowered by 0.05 and everything else kept; `FadeKeepsDimmed` and `FadeKeepsVisible` state that the kept dots are exactly the dimmed dots still above 0 |
| SkillsTimeline.Fade | src/components/SkillsTimeline.tsx:287-291 | a fade tick never lengthens the trail |
| SkillsTimeline.FadeKeepsDimmed | src/components/SkillsTimeline.tsx:287-291 | every dot kept by a fade tick has positive opacity and is an old dot with 0.05 less opacity, with the same id and position |
| SkillsTimeline.FadeKeepsVisible | src/components/SkillsTimeline.tsx:287-291 | every dot with more than 0.05 opacity survives a fade tick, dimmed |
| SkillsTimeline.FadeKeepsOrder | src/components/SkillsTimeline.tsx:287-291 | a fade tick keeps the order of the dots: ids still strictly increase |
| SkillsTimeline.FadeInRange | src/components/SkillsTimeline.tsx:287-291 | a fade tick keeps every opacity in (0, 1] |
| SkillsTimeline.FadeSpent | src/components/SkillsTimeline.tsx:287-291 | a tick drops every dot with at most 0.05 opacity left |
| SkillsTimeline.FadeTimesBound | src/components/SkillsTimeline.tsx:285-292 | after k ticks every remaining dot has opacity at most 1 - 0.05k |
| SkillsTimeline.TrailClearsAfterTwentyTicks | src/components/SkillsTimeline.tsx:285-292 | with no new dots, twenty ticks empty the trail |
| SkillsTimeline.MilestoneOpacity | src/components/SkillsTimeline.tsx:349-358 | a card's opacity always lies between 0.3 and 1 |
| SkillsTimeline.MilestoneOpacitySpec | src/components/SkillsTimeline.tsx:349-358 | only the active milestone has opacity 1; earlier ones get 0.8, 0.6, 0.4, then 0.3 by distance, always in [0.3, 0.8]; later ones get 0.6 |
| SkillsTimeline.MilestoneOpacityFades | src/components/SkillsTimeline.tsx:349-358 | among earlier milestones, the closer one is never dimmer |
| SkillsTimeline.MilestoneScale | src/components/SkillsTimeline.tsx:360-366 | a card's scale always lies between 0.95 and 1 |
| SkillsTimeline.MilestoneScaleSpec | src/components/SkillsTimeline.tsx:360-366 | only the active milestone has scale 1; earlier ones have 0.95 and later ones 0.98 |
| SkillsTimeline.NoActiveCardPastTheEnd | src/components/SkillsTimeline.tsx:349-366 | when the active index is 5, none of the five cards is shown as active |
| SkillsTimeline.IsLeft | src/components/SkillsTimeline.tsx:469 | a card sits on the left exactly when its index is even; `SidesAlternate` shows the sides alternate |
| SkillsTimeline.SidesAlternate | src/components/SkillsTimeline.tsx:469 | cards at even indices sit on the left, so consecutive cards alternate sides |
| SkillsTimeline.Timeline.constructor | src/components/SkillsTimeline.tsx:210-215 | the timeline starts at milestone 0, UFO visible, no explosion, an empty trail, the last dot at the origin and the id counter at 0 |
| SkillsTimeline.Timeline.OnScrollChange | src/components/SkillsTimeline.tsx:230-282 | the active milestone follows progress; `showExplosion` holds exactly past 0.88 and `ufoVisible` is its negation; a dot with the next id and full opacity is appended, keeping the last 25, only when mounted, below 0.88 and more than 2 away from the last dot; the last-dot position and the counter change only then; the trail stays at most 25 dots with strictly increasing ids below the counter |
| SkillsTimeline.Timeline.FadeTick | src/components/SkillsTimeline.tsx:285-292 | the fade interval replaces the trail with its faded form and changes nothing else, keeping the trail invariants |

## Left out

- The remote insert's transport and the toast UI. They are foreign calls, so the model records the insert and the toast and takes the outcome as an event parameter.
- The schema library's e-mail regular expression, which is the parameter `isEmail`. The maximum-length messages are that library's default wording, used here as fixed message constants.
- UTF-16 code-unit length. A string is a sequence of code points, so a character outside the Basic Multilingual Plane counts once, not twice.
- A thrown `null` or `undefined`. Reading `err.message` on it throws inside the `catch`, so no toast is shown, while `finally` still clears `isSubmitting`; the model has no outcome for this. A `message` that is truthy but not a string is not modelled either. Any other thrown value without a `message` reads as `undefined` and is `Failed(None)`.
- Floating-point rounding. Every decimal is a `real`. For example, JavaScript's `1 - 3 * 0.2` is slightly below 0.4.
- React's asynchronous state updates and their interleaving. Each handler runs to completion. A second click that lands before the re-render that disables the button is not modelled.
- The UFO's zig-zag position, the scroll-linked transforms and the exact `Math.sqrt`. The position is an input, and "moved more than 2" is the exact real condition dx² + dy² > 4.
- Timer delays (200 ms, 500 ms, 3 s, 100 ms) and unmount clean-up. Each firing is an event.
- All rendering and animation configuration, the Hero scroll fade, the header logo tilt, the preloader progress bar, ThemeToggle, BackgroundVideo, SmoothScroll, CustomCursor, About, Footer, App and Index. They are cosmetic or page composition, with no behavioural contract.
