# Verified model of the portfolio site's widget logic

This project models the self-contained logic in `assets/js/app.js`, the one
script of a static personal portfolio site. The DOM, timers and the network
are not modelled. What is modelled is the state those widgets keep and the
values they compute:

- **Navigation** (`navigation.dfy`): the delegated click handler that decides
  whether a link click is intercepted for the animated page transition. An
  intercepted link navigates to the very same `href` after 600 ms.
- **Typing** (`typing.dfy`): the typing effect as a state machine over
  `(phraseIndex, charIndex, isDeleting)` plus the one pending timer. The pure
  `Step` says what a firing does. The class `Typer` holds the closure
  variables and updates them in place. The lemmas prove the bounds invariant,
  the shown prefix, the delay rules, and that the phrases are visited in order,
  cyclically.
- **Carousel** (`carousel.dfy`): the testimonial slider's cyclic index
  (`Prev`, `Next`, auto-advance), and the `active` marks on slides and dots.
  The marks are arrays, updated in place by `GoTo`.
- **BlogFeed** (`feed.dfy`): shaping a feed item into a card. This covers
  tag stripping, the 120-character excerpt cut at a space, at most three
  tags, `count || 6` cards with JavaScript `slice` semantics, and quote
  escaping in `alt`. Any failure renders the fallback message.
- **Toggles** (`toggles.dfy`): the FAQ accordion and the journey timeline.
  Each is an in-place loop over flag arrays. After a click, either nothing is
  open or only the clicked item is.
- **Counters** (`counters.dfy`): the `animateCounters` guard. It includes a
  model of `parseInt` (white space, sign, `0x`, longest digit run, NaN). It
  proves that a counter is started at most once, with its parsed target, and
  that the final frame shows the target exactly.
- **Particles** (`particles.dfy`): the canvas size fallback and the
  particle-count formula `min(60, floor(w*h/15000))`.
- **Common** (`common.dfy`): `Option`, string prefix/suffix tests, the clamped
  prefix shared by `substring` and `substr`, and
  small facts about integer division.

Two behaviours of the code that a reader might not expect:

- An `href` that merely *begins* with the letters `http` is never intercepted,
  even when it is a relative page such as `https-guide.html`. The code uses a
  plain prefix test (the comment at `app.js:32` speaks of external links).
  `Navigation.RelativeHttpPrefixIsSkipped` shows this.
- `slice(0, count)` with a negative `count` drops items from the end; it is
  not an empty selection (`BlogFeed.SliceEnd`).

The typing effect's invariants need every phrase to be non-empty. The code
does not check this: with an empty phrase the character index grows without
bound and deleting never starts. So `AllNonEmpty` is an explicit hypothesis of
the invariant lemmas. It is not a precondition of `Step` or `Typer.Fire`,
which run on any non-empty phrase list, as the code does.

## Model

| member | source | states |
|---|---|---|
| Common.StartsWith | assets/js/app.js:33 | `startsWith(p)` holds exactly when the string is `p` followed by something. |
| Common.EndsWith | assets/js/app.js:36 | `endsWith(p)` holds exactly when the string is something followed by `p`. |
| Common.Prefix | assets/js/app.js:181-184 | `substring(0, n)` and `substr(0, n)` give a prefix of the string of length `n` clamped into `[0, length]`: empty for a negative `n`, the whole string for a long one. |
| Navigation.Skipped | assets/js/app.js:33 | A link is skipped exactly when its target is `_blank` or its href is one of `#`, `mailto:`, `tel:`, `http`, `javascript` followed by anything. |
| Navigation.SkipLooksAtStart | assets/js/app.js:33 | The skip rules look only at the start of the href: appending anything to a skipped href keeps it skipped. |
| Navigation.PageLink | assets/js/app.js:36 | A page link is `/`, `./`, or any text followed by `.html`. |
| Navigation.PageLinkLooksAtEnd | assets/js/app.js:36 | The page rule looks only at the end: a `.html` href stays a page link whatever is put in front of it. |
| Navigation.OnClick | assets/js/app.js:26-43 | A click is intercepted exactly when there is an anchor with a non-empty href, its target is not `_blank`, the href does not start with `#`, `mailto:`, `tel:`, `http` or `javascript`, and it ends in `.html` or is `/` or `./`. An intercepted click navigates to exactly that href after 600 ms. |
| Navigation.InterceptedLinks | assets/js/app.js:33-36 | Every intercepted link, spelled out character by character: same context, none of the skipped prefixes, and a `.html` path or the site root. |
| Navigation.SkipRulesWin | assets/js/app.js:33-36 | A skip rule overrides the page rule: a `_blank`, `#`, `mailto:`, `tel:`, `http` or `javascript` link is never intercepted, whatever it ends with. |
| Navigation.RelativeHttpPrefixIsSkipped | assets/js/app.js:33 | `https-guide.html` is not intercepted, while `guide.html` is (the prefix quirk). |
| Typing.Step | assets/js/app.js:178-196 | One firing keeps the phrase index in range. The next delay is 2000 exactly when the pause is pending, otherwise 30 while deleting and 80 while typing. Deleting starts only through the pause callback, which is scheduled only in typing mode at the end of the phrase. Deleting stops only at character 0, and exactly then the phrase index becomes `(phraseIndex + 1) % k`. |
| Typing.StartInv | assets/js/app.js:177 | With non-empty phrases the initial state satisfies the invariant. |
| Typing.StepInv | assets/js/app.js:177-195 | With non-empty phrases a firing keeps the invariant, keeps `0 <= charIndex <= |phrases[phraseIndex]|`, and shows exactly `phrases[phraseIndex][..charIndex]`. |
| Typing.Run | assets/js/app.js:178-196 | Any number of firings keeps the phrase index in range. |
| Typing.RunInv | assets/js/app.js:177-195 | The invariant and the character-index bounds hold after any number of firings. |
| Typing.TypingPhase | assets/js/app.js:183-189 | Typing from character `c` reaches the end of the phrase, with the pause pending, after `len - c` firings. |
| Typing.DeletingPhase | assets/js/app.js:180-194 | Deleting from character `c` reaches character 0 of the next phrase, back in typing mode, after `c` firings. |
| Typing.PhraseCycle | assets/js/app.js:178-196 | From the start of phrase `p`, `2 * |phrases[p]|` firings lead to the start of phrase `(p + 1) % k`. |
| Typing.CyclesReach | assets/js/app.js:193 | After the firings of `m` whole phrases, the machine is at the start of the phrase reached by `m` cyclic increments. |
| Typing.PhrasesInOrder | assets/js/app.js:193 | The phrases are visited in order, cyclically: after `m` whole phrases from phrase `p`, the machine is at the start of phrase `(p + m) % k`. |
| Typing.Typer.constructor | assets/js/app.js:177-197 | The initial state is phrase 0, character 0, typing, with the first timer at 1000 ms. |
| Typing.Typer.Fire | assets/js/app.js:178-196 | The in-place update of the closure variables, the text and the next timer equals `Step` applied to the old state. |
| Typing.InitTypingEffect | assets/js/app.js:174-198 | No effect without an element or with an empty phrase list; otherwise a fresh typer in the initial state. |
| Carousel.Next | assets/js/app.js:290-296 | The next index is in range: `i + 1`, or 0 after the last slide. |
| Carousel.Prev | assets/js/app.js:287-289 | The previous index is in range: `i - 1`, or the last slide from slide 0. |
| Carousel.PrevNextInverse | assets/js/app.js:287-292 | The previous and next controls undo each other. |
| Carousel.Advance | assets/js/app.js:294-296 | Any number of auto-advances keeps the index in `[0, n)`. |
| Carousel.AdvanceIsModular | assets/js/app.js:294-296 | `k` advances move the index to `(i + k) % n`. |
| Carousel.TimerFirings | assets/js/app.js:294-296 | After `elapsed` ms the 6000 ms interval has fired `k` times, where `k * 6000 <= elapsed < (k + 1) * 6000`. |
| Carousel.UntouchedSlide | assets/js/app.js:294-296 | Left alone, the slider shows slide `(elapsed / 6000) % n`: one slide per interval, cyclically. |
| Carousel.FullRoundTrip | assets/js/app.js:294-296 | `n` advances bring the slider back to the same slide. |
| Carousel.Moved | assets/js/app.js:277-283 | Moving the marks keeps one mark per slide. |
| Carousel.MovedMarks | assets/js/app.js:277-283 | After a move, the target is marked and the old position is not (unless it is the target). No other mark changes. |
| Carousel.MovedKeepsSingleMark | assets/js/app.js:268-283 | If exactly the current index was marked, exactly the new index is marked afterwards. |
| Carousel.Slider.constructor | assets/js/app.js:263-275 | One dot per slide, dot 0 active, current slide 0, slide marks as in the markup. |
| Carousel.Slider.GoTo | assets/js/app.js:277-283 | `current` becomes the index, slide and dot marks move from the old index to the new one, exactly one dot (the current one) stays active, and slides that were in step stay in step. |
| Carousel.Slider.ShowPrev | assets/js/app.js:285-289 | The previous control moves to `Prev(current)` and moves the marks with it. |
| Carousel.Slider.ShowNext | assets/js/app.js:290-296 | The next control and the auto-advance timer move to `Next(current)` and move the marks with it. |
| Carousel.InitTestimonialSlider | assets/js/app.js:262-275 | No slider without a dots container or without slides; otherwise a fresh valid slider at slide 0. |
| BlogFeed.CloseAt | assets/js/app.js:317 | Finds the first `>` at or after a position; nothing before it is a `>`. |
| BlogFeed.StripTags | assets/js/app.js:317 | Stripping never lengthens the text and introduces no new characters. |
| BlogFeed.StripTagsLeavesNoTag | assets/js/app.js:317 | After stripping, no `<` is followed anywhere later by a `>`. |
| BlogFeed.StripTagsKeepsPlainText | assets/js/app.js:317 | Text without such a run is returned unchanged. |
| BlogFeed.StripTagsIdempotent | assets/js/app.js:317 | Stripping twice equals stripping once. |
| BlogFeed.StripTagsKeepsHead | assets/js/app.js:317 | Text before the first `<` passes through unchanged, whatever follows it. |
| BlogFeed.StripTagsDropsTag | assets/js/app.js:317 | A `<`, the text up to the next `>`, and that `>` are removed together; nothing after them is affected. |
| BlogFeed.StripTagsDropsRun | assets/js/app.js:317 | For `a` without `<` and `t` without `>`, `a + "<" + t + ">" + b` strips to `a` followed by the stripped `b`: exactly the tag run goes, the text around it stays. |
| BlogFeed.SearchBack | assets/js/app.js:318 | The backward search returns the last index at or before the start holding the character, or -1 if there is none. |
| BlogFeed.LastIndexOf | assets/js/app.js:318 | `lastIndexOf` returns the last matching index at or before the clamped start, or -1 if there is none. |
| BlogFeed.Excerpt | assets/js/app.js:318 | Text of at most 120 characters is unchanged. Longer text becomes the prefix before the last space at an index of at most 120, followed by `...`, or just `...` when there is no such space. The result is at most 123 characters long. |
| BlogFeed.ExcerptKeepsNoTag | assets/js/app.js:317-318 | Cutting a tag-free text and appending `...` leaves it tag-free. |
| BlogFeed.NoSpaceGivesEllipsis | assets/js/app.js:318 | A long text without a space in its first 121 characters becomes exactly `...`. |
| BlogFeed.Tags | assets/js/app.js:321 | The tags are the first `min(3, |categories|)` categories, in order. A missing list counts as empty. |
| BlogFeed.SliceEnd | assets/js/app.js:312 | `slice(0, end)` keeps `min(end, n)` items for a non-negative end and `max(n + end, 0)` for a negative one. |
| BlogFeed.EffectiveCount | assets/js/app.js:303 | A missing or zero count means 6; any other count is kept. |
| BlogFeed.CardCount | assets/js/app.js:303-312 | The number of cards is `min(count, n)` for a positive count and `min(6, n)` for a missing or zero count. |
| BlogFeed.EscapeQuotes | assets/js/app.js:327 | The escaped title has no `"`; a title without quotes is unchanged. |
| BlogFeed.EscapeRoundTrip | assets/js/app.js:327 | For titles without `&`, turning `&quot;` back into `"` restores the title. |
| BlogFeed.Thumbnail | assets/js/app.js:313-316 | The image is the captured `src` when it is non-empty, else the fixed fallback; it is never empty. |
| BlogFeed.MakeCard | assets/js/app.js:311-334 | A card has the given position and the item's own title and link. Its image is the thumbnail of the captured `src`: that `src` when it is non-empty, otherwise the fallback, so never empty. Its `alt` is the title with every `"` escaped, so it holds no `"`. Its excerpt is the item's description with the tags stripped, cut at a word boundary: no tag run, at most 123 characters. Its tags are exactly the first `min(3, |categories|)` categories. |
| BlogFeed.RenderItems | assets/js/app.js:311-335 | `CardCount` cards; card `i` is built from item `i`. |
| BlogFeed.LoadBlogFeed | assets/js/app.js:300-342 | No effect without a container. An `ok` body renders the cards; any other outcome renders the single fallback message. |
| BlogFeed.LoadedCards | assets/js/app.js:303-335 | An `ok` response renders `min(count, n)` cards (6 by default). Card `i` has position `i` and item `i`'s title and link. Its excerpt is item `i`'s description with the tags stripped and cut at a word boundary: at most 123 characters, no tag run. Its `alt` has no `"`. Its tags are exactly the first `min(3, |categories|)` categories, in order. |
| BlogFeed.FailureRendersFallback | assets/js/app.js:307-342 | A network error, a malformed body or a non-`ok` status renders only the fallback message. |
| Toggles.AfterClick | assets/js/app.js:349-356 | A click keeps one flag per item. |
| Toggles.ClickOpensAtMostClicked | assets/js/app.js:349-356 | After a click on `x`, the open set is empty if `x` was open and `{x}` otherwise, whatever was open before. |
| Toggles.ClickLeavesAtMostOne | assets/js/app.js:346-359 | At most one item is open after any click. |
| Toggles.ClickTwice | assets/js/app.js:349-356 | Two clicks on the same item restore that item's state and leave every other item closed. |
| Toggles.AccordionClick | assets/js/app.js:348-357 | The in-place loop that closes the open items and then opens the clicked one if it was closed leaves exactly `AfterClick` of the old flags. |
| Toggles.TimelineClick | assets/js/app.js:395-399 | The in-place loop that collapses every item and then expands the clicked one if it was collapsed leaves exactly `AfterClick` of the old flags. |
| Counters.TrimStartDropsSpace | assets/js/app.js:153 | What `parseInt` skips is a prefix made only of white space and line terminators. What it keeps is the rest of the string, which does not start with one. |
| Counters.TrimSpaces | assets/js/app.js:153 | Leading white space is skipped whole, whatever follows it, provided that does not itself start with white space. |
| Counters.DigitRun | assets/js/app.js:153 | The longest prefix of digits of the radix: everything before it is a digit, and the next character is not. |
| Counters.ParseRun | assets/js/app.js:153 | The result is NaN exactly when the text does not start with a digit of the radix; otherwise it is a non-negative number. |
| Counters.ParseRunSplit | assets/js/app.js:153 | A leading run of digits is read whole, as its value, whatever follows it. |
| Counters.ParseMagnitude | assets/js/app.js:153 | Text not starting with a decimal digit is NaN. A decimal digit not followed by `x` or `X` always gives a number. Any number read is non-negative. |
| Counters.ParseSigned | assets/js/app.js:153 | Text starting with neither a digit nor a sign is NaN. A number read after `-` is at most 0; any other number read is at least 0. |
| Counters.ParseInt | assets/js/app.js:153 | After the leading white space, text starting with neither a digit nor a sign (an empty or blank string among them) is NaN. A negative result comes only from a written `-`, and a written `-` never gives a positive result. |
| Counters.MagnitudeOfDigits | assets/js/app.js:153 | Decimal digits followed by anything that does not extend them (not a digit, and no `x` / `X` after a lone `0`) are read as their value. |
| Counters.ParseLeading | assets/js/app.js:153 | White space, then decimal digits, then anything that does not extend the number, parses to the value of the digits (`" 42"`, `"12px"`). |
| Counters.ParseLeadingSigned | assets/js/app.js:153 | The same with a sign before the digits: `+` gives the value and `-` its negation (`"+7"`, `"-3 items"`). |
| Counters.ParseDecimal | assets/js/app.js:153 | A decimal number, with or without a minus sign, parses back to itself. |
| Counters.MissingIsNaN | assets/js/app.js:153 | A missing attribute, which `parseInt` receives as the string `undefined`, parses to NaN. |
| Counters.Target | assets/js/app.js:153 | The target is `parseInt` of the attribute, or of `undefined` when it is missing, and so NaN for a missing attribute. |
| Counters.Truthy | assets/js/app.js:154 | NaN and 0 are exactly the parse results that stop the counter. |
| Counters.DecimalCounterStarts | assets/js/app.js:153-154 | A counter whose `data-count` is a decimal number passes the guard exactly when that number is not 0. |
| Counters.Starts | assets/js/app.js:151-154 | A counter is started exactly when it is not yet marked and its target is neither NaN nor 0. |
| Counters.Targets | assets/js/app.js:150-153 | There is one parsed target per counter. |
| Counters.Started | assets/js/app.js:151-169 | Only counters not yet marked and whose target is neither 0 nor NaN are started. |
| Counters.StartedAll | assets/js/app.js:151-169 | Every such counter is started, with its parsed target. |
| Counters.StartedInOrder | assets/js/app.js:151-169 | Animations start in document order, so no counter starts twice in one call, and each runs towards its own target. |
| Counters.Marked | assets/js/app.js:152-168 | After a call, a counter is marked exactly when it was marked before or its target is neither 0 nor NaN; no mark is removed. |
| Counters.NothingStarts | assets/js/app.js:152-154 | When no counter qualifies, nothing is started. |
| Counters.SecondCallStartsNothing | assets/js/app.js:150-171 | A second call right after a first starts nothing, so each counter is animated at most once. |
| Counters.ReadTargets | assets/js/app.js:153 | Every counter's attribute is parsed, in order. |
| Counters.StartCounters | assets/js/app.js:151-169 | The in-place loop starts exactly `Started` and leaves exactly `Marked`. |
| Counters.AnimateCounters | assets/js/app.js:150-171 | `animateCounters` starts exactly the qualifying counters, in order, with their targets, and marks them. |
| Counters.CounterFrame | assets/js/app.js:157-166 | A frame requests another frame exactly while less than 2000 ms have elapsed. The last frame shows the target exactly. |
| Particles.SurfaceSide | assets/js/app.js:206-207 | The canvas takes the parent's size, or the viewport's when the parent's is 0. |
| Particles.ParticleCount | assets/js/app.js:212 | At most 60 particles and one per whole 15000 square pixels: as many as fit, unless the cap of 60 is reached. |
| Particles.CountMonotonic | assets/js/app.js:212 | A larger canvas never gets fewer particles. |

## Left out

- DOM queries, class-list plumbing, event listeners and the transition overlay's creation (`app.js:9-23`) are browser calls. Only the state they encode is modelled: `Outcome.Transition` stands for "default prevented, body leaving, overlay active".
- Timers (`setTimeout`, `setInterval`, `requestAnimationFrame`) belong to the event loop. The model keeps only the delay a step schedules, and one firing is one method call.
- The preloader, mobile menu, sticky navbar, active-section highlighting and smooth scrolling (`app.js:46-122`) depend on layout and scroll positions, and are not part of the widgets modelled here.
- The scroll-reveal `IntersectionObserver` (`app.js:124-147`) is browser wiring. Only the counter guard it calls is modelled.
- The particle positions, velocities, wrap-around, proximity lines and drawing (`app.js:224-253`) are floating-point values driven by `Math.random` and the canvas.
- The counter easing curve `1 - (1 - p)^3` is floating point. `CounterFrame` takes the floored eased value as a parameter.
- The `fetch` call to the rss2json service (`app.js:305-307`) is network I/O. Its outcome is the `Fetched` parameter. An exception thrown while rendering, which the `.catch` absorbs, is represented by `Malformed`.
- The `<img … src="…">` regular expression (`app.js:314`) is library behaviour. Its capture is a field of `Item`.
- Date formatting through `toLocaleDateString` (`app.js:319-320`) is locale behaviour.
- The HTML string of each card and the `--delay` style (`app.js:326-334`) are presentation. A card is a record of its parts, and `position` stands for the delay.
- Re-observing the new cards (`app.js:338`) is browser wiring.
- The portfolio filter (`app.js:361-387`) is timer-driven presentation (fade-out and show delays).
- The magnetic cursor and parallax transforms (`app.js:403-431`) are floating-point geometry from layout APIs.
- Counters.AnimateCounters: parses every `data-count` before the loop rather than inside it. `parseInt` has no side effects, so the same animations start with the same targets.
- `parseInt` is read with exact integers. JavaScript numbers lose precision above 2^53, and `parseInt("-0")` gives negative zero. The guard decides the same way in both cases, because a non-zero value stays non-zero and negative zero is falsy like 0. Only the target of a counter beyond 2^53 differs.
- Strings are sequences of Unicode scalar values, while JavaScript measures UTF-16 code units. Lengths and cut positions differ for characters outside the Basic Multilingual Plane.
- Typing.Typer.constructor: the typed element's previous text is the constructor's `text` argument. The element lookup itself is the `hasElement` flag of `InitTypingEffect`.
- Carousel.Slider.constructor: the dots container is assumed to have no children in the markup. The code finds the dots as `dotsContainer.children[i]` (`app.js:279`, `app.js:282`), so pre-existing children would shift them; the model's dot array holds only the dots the code creates. The slides' initial `active` marks come from the page markup (the `markup` argument). Under that assumption the dot invariant holds whatever the slide marks are. The slide marks stay in step with the dots only when the markup marks exactly slide 0 (`SlidesInStep`).
- Counters.ParseRun: its own contract gives only whether a number was read and its sign. The value read is stated by `Counters.ParseRunSplit`, and the value `parseInt` returns by `Counters.ParseLeading`, `Counters.ParseLeadingSigned` and `Counters.ParseDecimal`.
- Counters.ParseInt: its own contract gives NaN-ness and the sign. The value is stated by `Counters.ParseLeading`, `Counters.ParseLeadingSigned` and `Counters.ParseDecimal`, for the inputs a `data-count` attribute holds in practice. Hexadecimal input (`0x1F`) is modelled but has no value lemma.
