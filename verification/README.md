# Rotulate Publicidad page scripts — a Dafny model

This project models the decision logic in the two browser scripts of a
sign-shop marketing site.

`upload.js` keeps the list of files attached to the quote form. It also
runs the guards of the form's submit handler and composes the text sent to
the form backend. `main.js` holds the rest:

- the scroll throttle;
- the header and back-to-top thresholds;
- the active-section tracker for the navigation links;
- fragment-link scrolling;
- the mobile menu;
- the scroll-reveal observer;
- the hero carousel.

Everything that touches the page is abstracted. DOM reads become
parameters, DOM writes become fields of a returned state, and clocks,
timer handles and network outcomes are inputs. What is left is written as
pure functions with contracts, plus lemmas that relate them.

Modules:

- `Js` (`js.dfy`): the JavaScript semantics the scripts rely on. It covers
  the truncating `%`, the `\s` class used by both `trim` and the regular
  expressions, `substring(0, n)`, ASCII `toLowerCase`, `String(n)` for
  whole numbers, and `join`.
- `Attachments` (`attachments.dfy`): `addFiles` with its duplicate check,
  its 10 MiB ceiling and its revert. Also removal, `formatSize`, the
  extension and the icon table.
- `QuoteForm` (`quote_form.dfy`): the six guards in the order the handler
  runs them, the rate-limit wait, and the composed message and request.
  Also the form's state across submit events and responses.
- `Scroll` (`scroll.dfy`): the throttle over any series of calls, the two
  scroll thresholds and `updateActiveNav`.
- `Navigation` (`navigation.dfy`): the `#id` check, link and call-to-action
  clicks, and the four-part mobile menu.
- `Carousel` (`carousel.dfy`): slide arithmetic, autoplay interval handles
  and every event handler.
- `Reveal` (`reveal.dfy`): the intersection-observer callback and its
  no-observer fallback.

## Model

| member | source | states |
|---|---|---|
| Js.IsSpace | upload.js:163-192 | the `\s` class of `trim` and both patterns: the listed white-space and line-terminator code points. None of them is a digit, `@`, `+` or `.`, the characters the patterns and the extension test for |
| Js.Rem | main.js:204 | JavaScript's `%` with a positive divisor: the remainder lies in `[0, n)` for a non-negative dividend and in `(-n, 0]` for a negative one, and differs from the dividend by a multiple of `n` |
| Js.Trim | upload.js:163-165 | `trim()` returns a contiguous slice of the input. Only `\s` white space lies outside the slice, and the slice neither starts nor ends with white space |
| Js.TrimOfUnspaced | upload.js:163-164 | a string with no white space trims to itself |
| Js.Take | upload.js:219-221 | `substring(0, n)` is a prefix of at most `n` characters. It is the whole string when that fits, and exactly `n` characters otherwise |
| Js.Join | upload.js:213 | `join` of no parts is empty, and a joined string starts with the first part, followed by the separator when a second part follows |
| Js.Decimal | upload.js:214 | the count printed in the message is a non-empty run of digits without a leading zero |
| Js.DecimalRoundTrip | upload.js:214 | reading the printed count back gives the number, so the rendering is injective |
| Js.NumeralIsDecimal | upload.js:122-123 | every numeral without a leading zero is the one `String(n)` prints for its value, so such a numeral is fixed by the number it reads as |
| Js.ToLower | upload.js:80 | lower-casing keeps the length and maps each character on its own |
| Js.JoinContainsPart | upload.js:213 | every element of a `join(', ')` occurs whole inside the joined string |
| Js.JoinSnoc | upload.js:213 | joining one more part appends the separator and that part, so the parts follow in order, one separator between each pair and nothing else |
| Attachments.Merge | upload.js:50-56 | the loop adds batch files after the prior list, which stays a prefix. The result holds exactly the files that were listed or arrived, and grows by at most the batch length |
| Attachments.MergeKeepsNoDuplicates | upload.js:51-55 | the name-and-size check keeps a duplicate-free list duplicate-free, including repeats inside one batch |
| Attachments.MergeOfFreshBatch | upload.js:50-56 | a batch that repeats nothing, among itself or with the list, is appended whole and in order |
| Attachments.MergeKeepsArrivalOrder | upload.js:50-56 | the files a batch adds are a subsequence of the batch |
| Attachments.MergeSnoc | upload.js:50-56 | first arrival: one more batch file is appended exactly when neither the list nor an earlier batch file holds it, so the kept batch files are the first occurrences in arrival order |
| Attachments.SliceToMinus | upload.js:62 | `slice(0, -k)` is a prefix that drops the last `k` entries when there are that many, is empty when there are fewer, and is empty for `k == 0` because `-0` is `0` |
| Attachments.AddFiles | upload.js:49-66 | `addFiles` as written. The oversize error is raised exactly when the merged total exceeds 10 MiB. Otherwise the list becomes the merge: the prior list followed by the batch's first arrivals. On overflow the list left is a prefix of the prior list, shorter by one entry for each batch file skipped as a duplicate (all of it when that is more than the list holds), and empty for an empty batch; so it is the prior list itself when no batch file was skipped |
| Attachments.AddFilesRestoring | upload.js:49-66 | the corrected revert: on overflow exactly the prior list is restored, and otherwise the list becomes the merge |
| Attachments.RevertDropsPriorFile | upload.js:62 | concrete input where the as-written revert empties the list and the corrected one keeps the prior file |
| Attachments.AddFilesKeepsWellFormed | upload.js:49-66 | both versions keep the list free of duplicates and within 10 MiB |
| Attachments.EmptyBatchChangesNothing | upload.js:59-62 | an empty batch leaves a within-ceiling list unchanged, so `slice(0, -0)` is never reached |
| Attachments.RemoveAt | upload.js:109 | `splice(i, 1)` deletes entry `i` and shifts the later ones down by one |
| Attachments.RemoveAtTakesOffItsSize | upload.js:59-109 | removing an entry lowers the total by exactly its size |
| Attachments.RemoveAtKeepsWellFormed | upload.js:109 | removing an entry keeps the list duplicate-free and within the ceiling |
| Attachments.RemoveAtTakesOutOneFile | upload.js:109 | removal takes out that one file as a multiset, and from a duplicate-free list the file is then gone |
| Attachments.Extension | upload.js:80 | `split('.').pop()` is the suffix after the last dot, with no dot in it, or the whole name when there is no dot |
| Attachments.FileExtension | upload.js:80 | the lower-cased extension holds no dot, is as long as the extension, and for a name without a dot is the whole name lower-cased |
| Attachments.ExtensionAfterLastDot | upload.js:80 | for any stem and any dot-free extension, `stem.ext` yields `ext` |
| Attachments.GetFileIcon | upload.js:126-132 | corrected lookup: the ten listed extensions get their glyph. The paper clip is returned exactly for every other string |
| Attachments.GetFileIconAsWritten | upload.js:126-132 | `icons[ext] \|\| '📎'` as written: listed extensions get their glyph, inherited `Object.prototype` keys yield the inherited member, and everything else gets the paper clip |
| Attachments.ConstructorExtensionShowsNoIcon | upload.js:80-131 | the file `plan.constructor` gets an inherited member from the code as written, and the paper clip from the corrected lookup |
| Attachments.IconFollowsExtension | upload.js:80-88 | a file's icon depends only on the lower-cased text after its last dot |
| Attachments.SizeLabelOf | upload.js:120-124 | no label exactly for 0 bytes. Whole kilobytes below 1 MiB and tenths of megabytes from 1 MiB on, each the nearest value to the exact quotient with ties rounded up, as `toFixed` does |
| Attachments.SizeTextRoundTrip | upload.js:122-123 | the printed size reads back as the label it came from |
| Attachments.FormatSize | upload.js:120-124 | `formatSize` is empty exactly for 0 bytes and ends in " MB" from 1 MiB on and in " KB" below. It reads back as the rounded value, which by `ParsedTextIsSizeText` fixes the text |
| Attachments.ParsedTextIsSizeText | upload.js:120-124 | the reader accepts only texts `formatSize` can print: any text it reads as a label is that label's text, so no other text reads back as the same size |
| Attachments.LeadingZeroRefused | upload.js:122-123 | `01 KB` and `01.0 MB`, which `toFixed` never prints, are refused |
| QuoteForm.EmailPatternIsShape | upload.js:180 | the email pattern holds exactly when the address has no white space, exactly one `@` with something before it, and after it a dot with characters on both sides |
| QuoteForm.EmailPattern | upload.js:180 | `^[^\s@]+@[^\s@]+\.[^\s@]+$` as a choice of the `@` and the dot: an accepted address has at least five characters and an `@` |
| QuoteForm.TruncatedAddressRefused | upload.js:180-181 | `ana@` fails the email pattern |
| QuoteForm.PhonePattern | upload.js:192 | `^[\+]?[\d\s\-\(\)]{7,20}$`: an accepted phone has 7 to 21 characters |
| QuoteForm.PhonePatternIsShape | upload.js:192 | a leading `+` is always the optional one, since `+` is not a phone character: the pattern holds exactly when the rest after it, or the whole number without it, is 7 to 20 phone characters |
| QuoteForm.PhonePatternLength | upload.js:192 | an accepted phone has 7 to 21 characters, and 21 only with the leading `+` |
| QuoteForm.FirstFailing | upload.js:147-200 | the handler's early returns: no guard is reported exactly when all pass. A reported guard fails, and every guard the handler runs before it passes |
| QuoteForm.SecondsLeft | upload.js:156-157 | the wait shown is the remaining time in whole seconds rounded up: at least 1 and the least `s` with `remaining <= s*1000` |
| QuoteForm.TenSecondsElapsed | upload.js:157 | ten seconds after a send, 50 seconds remain |
| QuoteForm.RejectionBy | upload.js:149-199 | each guard's failure reports that guard |
| QuoteForm.Decide | upload.js:144-223 | a request is built exactly when all six guards pass. Otherwise the rejection names the first failing guard in handler order, with the rounded-up wait for the rate limit |
| QuoteForm.IncompleteEmailStopsSubmission | upload.js:163-189 | name `Ana`, email `ana@` and a service, a minute after the last send, are stopped at the email check |
| QuoteForm.RateLimitReportsWait | upload.js:147-160 | within a minute of the last send a submission that is not a bot's is refused with the rounded-up wait |
| QuoteForm.MessageText | upload.js:208 | the user's text is the prefix of the trimmed message of exactly `min(length, 2000)` characters, so it is unchanged when it fits and exactly 2000 characters long otherwise |
| QuoteForm.FilesSummary | upload.js:212-215 | a files summary is appended exactly when files are attached |
| QuoteForm.ComposeMessage | upload.js:208-215 | the final message starts with the user's text, and equals it exactly when no files are attached |
| QuoteForm.EveryFileListed | upload.js:212-214 | every attached file's `name (size)` entry occurs in the final message |
| QuoteForm.FileCountReadsBack | upload.js:214 | right after the heading, the summary carries a numeral that reads back as the number of attached files |
| QuoteForm.BuildRequest | upload.js:218-223 | the request as written: name, email and phone are the prefixes of their trimmed values of exactly `min(length, cap)` characters for caps 100, 254 and 20, the service as chosen, and the composed message |
| QuoteForm.SentRequest | upload.js:174-223 | a sent request carries the name and email exactly as trimmed (the length guard already bounds them), the phone cut to its first 20 characters, the service as chosen and the composed message |
| QuoteForm.AcceptedPhoneIsCut | upload.js:192-221 | concrete input: `+` and twenty digits pass the pattern but only twenty characters are sent |
| QuoteForm.BuildRequestKeepingPhone | upload.js:192-221 | corrected request: name and email cut as before, the phone cut to 21 characters, so a phone that passed validation, or an empty one, is sent whole |
| QuoteForm.OnSubmit | upload.js:144-206 | while a request is in flight nothing happens. A request goes out exactly when every guard passes, and the form is then marked sending with the banner hidden. A rejection changes only the banner, and only for the wait and length causes |
| QuoteForm.OnResponse | upload.js:232-256 | success records the response time, hides the form and shows the success panel, which carries the files note exactly when it already did or files are attached. Failure raises the error banner and keeps the send time, the panels and the note. Either way the button is enabled again |
| QuoteForm.OnFilesAdded | upload.js:60-61 | the oversize error raises its banner and changes nothing else |
| QuoteForm.SubmitTooSoonShowsWait | upload.js:154-159 | within a minute of the last send, a submit sends nothing and shows the wait banner with the rounded-up seconds |
| QuoteForm.FirstSubmissionNotRateLimited | upload.js:9-157 | `lastSubmitTime` starts at 0, so once the clock reads a minute past the epoch the first submission is sent exactly when the other five guards pass |
| QuoteForm.SecondSubmissionTenSecondsLater | upload.js:155-233 | after a successful send, a new submit ten seconds later sends nothing and asks for a wait of at least 50 seconds |
| Scroll.Gate | main.js:13-17 | one throttled call goes through exactly when at least `ms` have passed since the last call let through, and then becomes that last call |
| Scroll.Forwarded | main.js:10-19 | over any series of calls, the calls let through are among the calls made, the first is at least `ms` after the start, and neighbours are at least `ms` apart |
| Scroll.LastAfterIsLastForwarded | main.js:11-15 | the throttle's `last` is the last call let through, or 0 when none was |
| Scroll.ForwardedSnoc | main.js:14-16 | a further call goes through exactly when it comes at least `ms` after the last one let through |
| Scroll.ForwardedFarApart | main.js:10-19 | any two calls let through, not only neighbours, are at least `ms` apart |
| Scroll.ScrollHandlerSpacing | main.js:10-53 | with `throttle(onScroll, 100)` any two scroll events that reach `onScroll` are at least 100 ms apart |
| Scroll.LastReached | main.js:58-63 | the index found is that of a reached section after which no section is reached. None is found exactly when no section is reached |
| Scroll.UpdateActiveNav | main.js:56-72 | the loop settles on the id of the last reached section, or the empty string, and marks a link active exactly when its `href` is `#` plus that id |
| Scroll.OnScroll | main.js:30-51 | the header is compact exactly past 50 pixels and the back-to-top button shows exactly past 600, with the links marked as `updateActiveNav` does |
| Scroll.ReachedIsPrefix | main.js:58-63 | with sections laid out top to bottom, every section up to the current one is reached and none after it is |
| Scroll.BareHashActiveAtTop | main.js:57-68 | before any section is reached the current id is empty and a bare `#` link is marked active |
| Scroll.BareHashInactiveOnceReached | main.js:61-68 | when every section has a non-empty id and one of them is reached, a bare `#` link is not marked |
| Navigation.IsFragment | main.js:80 | `^#[\w-]+$` holds exactly when the `href` is `#` followed by a plain id: a non-empty run of ASCII letters, digits, `_` and `-` |
| Navigation.FragmentId | main.js:80-81 | for an `href` passing `^#[\w-]+$`, `substring(1)` is a non-empty `[\w-]` id that gives the `href` back when prefixed with `#` |
| Navigation.FragmentOfPlainId | main.js:80 | `#` followed by a string passes the check exactly when the string is a plain id, and the id is then read back |
| Navigation.FragmentExamples | main.js:80-97 | `#`, an absolute address and `#a.b` are refused, and `#cotizar` is accepted |
| Navigation.MenuStep | main.js:133-150 | the toggle flips the nav's state and leaves a coherent menu, an overlay click closes, Escape on an open nav closes all four parts, and other keys, or Escape on a closed nav, change nothing |
| Navigation.MenuStepKeepsCoherent | main.js:117-150 | every menu handler keeps the nav, toggle, `aria-expanded`, overlay and body lock in agreement |
| Navigation.ToggleTwiceIsIdentity | main.js:134-140 | two toggle clicks leave a coherent menu as it was |
| Navigation.MenuRunKeepsCoherent | main.js:117-150 | any series of menu events keeps the menu coherent |
| Navigation.Target | main.js:80-84 | a target exists exactly when the `href` is present, passes the check and names an element on the page, and it lies 80 pixels above that element |
| Navigation.NavLinkClick | main.js:75-91 | the default is always cancelled. The page scrolls to 80 pixels above the element exactly when the `href` is a valid fragment naming an element, and the menu then closes. Otherwise nothing changes |
| Navigation.CtaClick | main.js:94-108 | the same scroll and close, but the default is cancelled exactly when the page scrolls |
| Navigation.LinkAndButtonAgree | main.js:75-108 | both handlers scroll and close alike, and a call-to-action cancels the default only when a link would |
| Navigation.LinkToPlainIdScrolls | main.js:80-88 | a link to `#id` of an element on the page scrolls to its offset minus 80 and closes the menu |
| Navigation.ClicksKeepCoherent | main.js:88-105 | link clicks keep the menu coherent |
| Carousel.SlideIndex | main.js:204 | `((i % n) + n) % n` with JavaScript's `%` lies in `[0, n)` and is the Euclidean remainder of `i` |
| Carousel.SlideIndexExamples | main.js:204 | `-1 % 3` is `-1` in JavaScript, index `-1` lands on slide 2, and index 3 wraps to slide 0 |
| Carousel.GoToSlide | main.js:197-211 | the current slide becomes the Euclidean remainder of the index, and nothing else changes |
| Carousel.NextSlide | main.js:213-215 | the next slide is `(current + 1) mod n` and nothing else changes |
| Carousel.PrevSlide | main.js:217-219 | the previous slide is `(current - 1 + n) mod n` and nothing else changes |
| Carousel.NextPrevInverse | main.js:213-219 | forward then back, and back then forward, return to the same slide |
| Carousel.StopAutoplay | main.js:226-231 | a held, truthy handle is cleared and forgotten. Otherwise nothing changes |
| Carousel.StartAutoplay | main.js:221-224 | the carousel holds a fresh interval handle, which joins the running set once the old one is stopped |
| Carousel.StartAutoplayKeepsOneTimer | main.js:221-231 | restarting a carousel whose only running interval is its own leaves exactly the new interval running |
| Carousel.Init | main.js:186-270 | nothing happens with fewer than two slides. Otherwise the current slide is 0 and exactly one interval runs |
| Carousel.Step | main.js:233-268 | the slide count never changes. A manual move holds a fresh interval handle. Any other event changes at most the current slide, and a stale tick or another key changes nothing |
| Carousel.StepKeepsOneTimer | main.js:233-268 | every event keeps exactly one interval running. A manual move replaces it with a fresh one and anything else keeps it |
| Carousel.StepMovesSlide | main.js:223-268 | dots go to their index, next, ArrowRight and a tick advance by one, prev and ArrowLeft go back by one, and other keys and stale ticks change nothing |
| Carousel.RunKeepsOneTimer | main.js:186-271 | from initialisation on, whatever events arrive, exactly one interval runs and the current slide exists |
| Reveal.Init | main.js:160-183 | with an observer every element is watched and none revealed. Without one every element is revealed and none watched |
| Reveal.OnEntry | main.js:164-168 | an intersecting report reveals its element and stops watching it. Other reports change nothing |
| Reveal.OnEntries | main.js:163-169 | after a batch of reports, an element is revealed exactly when it was before or some report says it intersects, and exactly those elements stop being watched |
| Reveal.OnEntriesNeverHides | main.js:165-167 | no report takes the `revealed` class away |
| Reveal.OnEntriesKeepsConsistent | main.js:163-177 | an element stays watched exactly while it is not revealed |
| Reveal.AllSeenAllRevealed | main.js:163-169 | once every element has been reported intersecting, all are revealed and nothing is watched |

## Left out

- DOM access, CSS classes beyond those listed, inline styles, `setTimeout` shakes, `console` output and the analytics push (upload.js:236-238) are not modelled. Their effects are not decisions.
- The network call (upload.js:226-230) is an input: whether the response was ok, and the clock reading when it arrived. Exceptions thrown by `fetch` count as a not-ok response.
- Browser clocks (`Date.now()`), `window.scrollY`, `offsetTop` and the observer's intersection geometry (the 15% threshold and the 40-pixel margin) are parameters. Scroll offsets are whole numbers, and fractional `scrollY` values are not modelled.
- Strings are sequences of Unicode code points, where JavaScript's are UTF-16 code units. A character outside the Basic Multilingual Plane, an emoji say, is one element here and two code units there. So the 100, 254, 20 and 2000 caps (upload.js:174, 208, 219-221) count such a character once where JavaScript counts two: a name of 60 emoji passes the length guard here and is refused in the browser, and a cut never splits a surrogate pair.
- Js.ToLower: lower-cases ASCII letters only. JavaScript's full Unicode mapping is left out because the icon table's keys are ASCII.
- Attachments.SizeLabelOf: `toFixed`'s exponent form, which it uses for kilobyte or megabyte values of 10^21 or more, is left out. `File.size` is at most 2^53-1 bytes, so that form can never occur.
- Controls or elements that are missing from the page (the `?.` reads of upload.js:148-166, a null `nav` in main.js) are not modelled. Every control is assumed present, with `value` a string.
- The autoplay period (5 s, main.js:195): ticks are events from a running interval handle, and the model keeps no time between them.
- The back-to-top button's click (main.js:153-157) is a bare `scrollTo(0)` and is not modelled.
- The banner texts are reduced to their cause. The success panel's HTML is reduced to a flag.
- `onScroll` runs once, unthrottled, at load (main.js:274). The model covers the handler itself, so its result is the same whichever way it was called.
- The menu's initial `aria-expanded` comes from the page's HTML. The model assumes it starts in the closed state.
- A call-to-action link inside the nav would get both click handlers. Each handler is modelled on its own.
- QuoteForm.Decide: builds the request with the phone cut to 20 characters, as written. The corrected BuildRequestKeepingPhone is not wired in.

## Findings

| source | as written | input that shows it | evidently intended | confidence | as-written member | corrected member |
|---|---|---|---|---|---|---|
| upload.js:62 | on overflow, `slice(0, -newFiles.length)` drops as many trailing entries as the batch had, even when some batch files were skipped as duplicates | list `[a.pdf 6 MB]`, batch `[a.pdf 6 MB, b.pdf 5 MB]`: the merged 11 MB list is cut by two and ends empty | restore the list as it was before the batch | high (not executed) | Attachments.AddFiles, Attachments.RevertDropsPriorFile | Attachments.AddFilesRestoring |
| upload.js:192-221 | the phone pattern admits a `+` and twenty characters, but only `substring(0, 20)` is sent | `+12345678901234567890` passes validation and is sent as `+1234567890123456789` | send the validated number whole | high (not executed) | QuoteForm.BuildRequest, QuoteForm.AcceptedPhoneIsCut | QuoteForm.BuildRequestKeepingPhone |
| upload.js:127-131 | `icons[ext]` also finds members inherited from `Object.prototype` | a file named `plan.constructor` gets the `Object` function as its icon, and it is shown as text | unknown extensions get the paper clip | high (not executed) | Attachments.GetFileIconAsWritten, Attachments.ConstructorExtensionShowsNoIcon | Attachments.GetFileIcon |
