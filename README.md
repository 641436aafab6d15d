# ontheweb page script, modelled in Dafny

`script.js` drives a personal web site: it highlights the sidebar link of the
current page, shortens the calendar's schedule entries to their titles,
remembers which reading-list sections are expanded and which goals are
checked, and rotates a pool of quotes behind a "next" button. This project
models the decision logic of those handlers once the page is taken out of
them, and proves what each one computes.

Modules:

- `Wrappers` — `Option`.
- `JsBuiltins` — the JavaScript built-ins the handlers rely on, with their
  JavaScript meaning: `%` (the remainder keeps the sign of the dividend),
  `lastIndexOf`, `includes`, `split(sep)[0]`, `trim`, `toLowerCase`,
  `replace(/\s+/g, fill)`, `String(n)`, and first match in document order
  (what `querySelector` returns).
- `QuoteRotator` — the quote widget (`setupQuotes`, `showQuote` and the
  "next" click handler). The class `Rotator` holds the pool's `data-quote`
  tags, the handler's `totalQuotes`, and an array of visible flags. That
  array is the quotes' `hidden` classes, negated. `ShowQuote` and `Advance`
  are methods with loops. The random start is a parameter `pick`.
- `NavHighlight` — `highlightCurrentNavItem`. The class `NavMenu` holds each
  link's `href` and an array of `active` flags.
- `CalendarText` — `simplifyCalendarText`. The class `Schedule` holds the
  schedule items' texts in an array.
- `StorageKeys` — the keys and values written to local storage by the
  reading-list section handler and the goal checkboxes, plus the section
  header's click handler as a function on the classes it toggles.

The script itself shows which range the quote indices should take. The
comment `+1 for our new quote` on the start index (script.js:241), the
appended quote's tag `4` (script.js:231) and the click handler's wrap
`currentIndex % totalQuotes + 1` (script.js:252) all number a pool of `n + 1`
quotes from 1 to `n + 1`. The start index, though, is
`floor(random * (n + 1))`, which lies in `0..n`. The tag `4` is also fixed,
so it is `n + 1` only when the markup has three quotes. The model follows the
code as written and proves both corrections separately; see "## Findings".

## Model

| member | source | states |
|---|---|---|
| `QuoteRotator.NextIndex` | script.js:251-252 | from an index `0 <= i < total` the next index is `i + 1`; from `total` it wraps to 1 |
| `QuoteRotator.NextIndexRange` | script.js:252 | a non-negative current index always leads into `1..total`; a negative one leads to at most 1, because JavaScript's `%` keeps the dividend's sign |
| `QuoteRotator.AdvancedFormula` | script.js:245-255 | `k <= total` clicks from an index in `1..total` move `k` places around the cycle, wrapping past `total` to 1 |
| `QuoteRotator.CycleCloses` | script.js:245-255 | `total` clicks from any index in `1..total` come back to it |
| `QuoteRotator.Reachable` | script.js:245-255 | every index in `1..total` is reached from every other in fewer than `total` clicks |
| `QuoteRotator.OrbitDistinct` | script.js:245-255 | the first `total` indices visited are pairwise distinct, so the clicks visit the quotes in a single cycle |
| `QuoteRotator.AppendedTagFits` | script.js:229-231 | the appended quote tagged `4` completes a pool tagged `1..n+1` if and only if the markup has exactly 3 quotes tagged `1..3` |
| `QuoteRotator.AppendedTagLeavesGap` | script.js:231 | with two markup quotes tagged 1 and 2, a click from the second quote asks for index 3, which no quote has, so every quote is hidden |
| `QuoteRotator.CorrectedAppendedTag` | script.js:231 | the corrected tag `n + 1` is a valid, positive index, and it is the hard-coded `4` when the markup has three quotes |
| `QuoteRotator.CorrectedAppendedTagFits` | script.js:231 | with the corrected tag, a markup pool tagged `1..n` becomes a pool tagged `1..n+1`, for every `n` |
| `QuoteRotator.Shown` | script.js:261-272 | after `showQuote(i)` the flags have one entry per quote, and no quote is visible when none is tagged `i` |
| `QuoteRotator.ShownIff` | script.js:263-271 | a quote is visible after `showQuote(i)` exactly when it is the first quote in document order tagged `i`; every other quote is hidden whatever it was before |
| `QuoteRotator.ShownCanonical` | script.js:261-272 | on a pool tagged `1..n`, an index in range leaves exactly the quote at that position visible; any other index leaves none visible |
| `QuoteRotator.Step` | script.js:247-254 | a click keeps one flag per quote |
| `QuoteRotator.StepWithoutVisible` | script.js:247-248 | a click with no visible quote fails, where the handler dereferences a null query result |
| `QuoteRotator.StepMovesOn` | script.js:247-254 | on a pool tagged `1..n` with exactly one visible quote, a click leaves exactly the next quote visible, wrapping from the last to the first |
| `QuoteRotator.StepsMoveOn` | script.js:245-255 | `k <= n` clicks from one visible quote leave exactly the quote `k` places on visible, and none of them fails |
| `QuoteRotator.StepsCycle` | script.js:245-255 | `n` clicks from one visible quote restore the visible flags |
| `QuoteRotator.StartAsWrittenMisses` | script.js:241-242 | for three markup quotes tagged 1 to 3 (the markup the tag `4` fits), the appended last quote is never the first one shown; a start of 0 shows no quote, and the first click then fails |
| `QuoteRotator.CorrectedStart` | script.js:241 | for a pick in `0..n` the corrected start lies in `1..n+1` and is exactly one more than the pick |
| `QuoteRotator.CorrectedStartShowsOne` | script.js:241-242 | with the corrected start, on a pool tagged `1..n+1` exactly the quote at position `pick` is visible, so every quote can come first |
| `QuoteRotator.Rotator.constructor` | script.js:229-242 | the pool is the markup's quotes plus the appended quote with the given tag; `totalQuotes` is their number; the visible flags are those of `showQuote(start)` |
| `QuoteRotator.Rotator.ShowQuote` | script.js:261-272 | the loops hide every quote and then show the first one tagged `index`; the new flags are `Shown(tags, index)`, whatever they were before |
| `QuoteRotator.Rotator.Advance` | script.js:245-255 | the click succeeds exactly when some quote is visible; it then reads the first visible quote's tag and shows the next index (`Step`); on failure nothing changes |
| `QuoteRotator.SetupQuotes` | script.js:218-242 | setup does nothing unless the container, at least one quote and the button are all there; otherwise the pool has `n + 1` quotes, the last tagged `4`, and the quote tagged `pick` (in `0..n`) is shown |
| `QuoteRotator.SetupQuotesFixed` | script.js:218-242 | the same setup with both corrections: the appended quote is tagged `n + 1` and the start is `pick + 1`; on markup tagged `1..n`, for every `n`, exactly the quote at position `pick` is visible |
| `NavHighlight.PageName` | script.js:68-69 | the page name has no `/` and is no longer than the path |
| `NavHighlight.PageNameIsSuffix` | script.js:68-69 | the page name is a suffix of the path, with a `/` right before it when it is shorter; so it is everything after the last `/`, or the whole path when there is none |
| `NavHighlight.ActivePage` | script.js:72 | the active page is never empty: it is the page name, or `home` when the page name is empty |
| `NavHighlight.IsActive` | script.js:78-80 | the three-way condition on a link holds exactly when its `href` includes the active page; the `#home` and exact-match cases are substring matches already |
| `NavHighlight.Stop` | script.js:75-80 | the loop reaches the first link without an `href`, or runs to the end exactly when every link has one |
| `NavHighlight.Highlighted` | script.js:75-85 | the loop keeps one flag per link |
| `NavHighlight.HighlightedIff` | script.js:75-85 | when every link has an `href`, a link ends up active exactly when the condition holds for it, and every other link ends up inactive |
| `NavHighlight.HighlightedStops` | script.js:76-80 | from a link without an `href` on, the loop has thrown, and every later link keeps its state |
| `NavHighlight.HighlightedIdempotent` | script.js:75-85 | highlighting twice is highlighting once |
| `NavHighlight.NavMenu.Highlight` | script.js:67-86 | the loop sets each link's flag by the condition; it finishes exactly when every link has an `href`; links from the first one without an `href` keep their flags |
| `CalendarText.Title` | script.js:287 | the title is a prefix of the text with no comma, followed in the text by a comma or by nothing |
| `CalendarText.TitleUnique` | script.js:287 | no other prefix has those properties, so they define the title |
| `CalendarText.TitleOfCommaFree` | script.js:287 | a text without a comma is its own title |
| `CalendarText.TitleIdempotent` | script.js:285-288 | taking the title twice is taking it once |
| `CalendarText.Simplified` | script.js:283-289 | items marked empty keep their text; every other item's text becomes its title: a comma-free prefix, followed in the old text by a comma or by nothing |
| `CalendarText.SimplifiedIdempotent` | script.js:283-289 | running the simplification twice changes nothing more than running it once |
| `CalendarText.Schedule.Simplify` | script.js:281-290 | the loop overwrites each item not marked empty with its title and leaves the others alone |
| `StorageKeys.SectionSlug` | script.js:162 | the slug contains no white space and is no longer than the heading |
| `StorageKeys.SlugOfTwoWords` | script.js:162 | white space around the heading disappears, the run between two words becomes one `-`, and the words are lower-cased |
| `StorageKeys.SlugOfBlank` | script.js:162 | a heading of white space only has the empty slug |
| `StorageKeys.SlugOfOneWord` | script.js:162 | a single word with white space around it has its lower-cased self as slug |
| `StorageKeys.SlugOfWords` | script.js:162 | a heading of any number of words: the first word, lower-cased, then one `-`, then the slug of the rest; so the slug is the words lower-cased and joined by single `-`, whatever white space separates them |
| `StorageKeys.SlugIgnoresSurroundingSpace` | script.js:162 | white space around a heading does not change its slug |
| `StorageKeys.SlugIdempotent` | script.js:162 | the slug of a slug is the slug itself |
| `StorageKeys.SectionKey` | script.js:163 | the key is `section_`, then the slug, then `_expanded` |
| `StorageKeys.SectionKeyRoundTrip` | script.js:163 | the slug can be read back from the key |
| `StorageKeys.SectionKeySameIff` | script.js:163 | two headings share a key exactly when they share a slug |
| `StorageKeys.BoolText` | script.js:163 | the stored value is `"true"` exactly when the content is expanded, and `"false"` otherwise |
| `StorageKeys.ClickHeader` | script.js:152-164 | a click flips the header; it flips the following element only when that is expandable content, and then stores the content's new state under the section's key; a header outside any section throws before storing |
| `StorageKeys.ClickTwice` | script.js:152-164 | two clicks restore every class, and the second click stores the state the section is back in |
| `StorageKeys.GoalKey` | script.js:197 | the key is `goal_` followed by the checkbox's position in decimal digits |
| `StorageKeys.GoalKeyRoundTrip` | script.js:197 | the position can be read back from the key |
| `StorageKeys.GoalKeyInjective` | script.js:197 | two checkboxes share a key exactly when they share a position |
| `StorageKeys.GoalsHaveOwnKeys` | script.js:174-181 | each of the six listed goals is stored under its own key |
| `StorageKeys.KeysDisjoint` | script.js:163-197 | no section key is a goal key |
| `StorageKeys.GoalValue` | script.js:197 | the stored value is `'completed'` exactly when the box is checked and `'incomplete'` exactly when it is not |
| `StorageKeys.GoalEntry` | script.js:195-197 | a change stores, under a key that reads back as the checkbox's position, `'completed'` exactly when the box is checked |
| `JsBuiltins.JsRem` | script.js:252 | JavaScript's `%`: the remainder has the dividend's sign, is smaller than the divisor in size, and is the dividend itself whenever the dividend is smaller than the divisor in size |
| `JsBuiltins.JsRemEuclidean` | script.js:252 | on a non-negative dividend JavaScript's `%` is the mathematical remainder; on a negative one it is the negated remainder of the dividend's size |
| `JsBuiltins.FirstIndexOf` | script.js:268 | the first match in document order: it points at a match, nothing earlier matches, and there is none exactly when nothing matches |
| `JsBuiltins.LastIndexOf` | script.js:69 | `lastIndexOf`: `-1` or a position holding the character, with no occurrence after it |
| `JsBuiltins.IncludesBounds` | script.js:80 | `includes`: a text never includes a longer one, and includes each of its prefixes |
| `JsBuiltins.IncludesIff` | script.js:80 | `includes` holds exactly when the text occurs at some position |
| `JsBuiltins.SplitFirst` | script.js:287 | `split(sep)[0]`: a prefix without `sep`, followed by `sep` or by the end of the text |
| `JsBuiltins.Trim` | script.js:162 | the trimmed text is no longer and neither begins nor ends with white space |
| `JsBuiltins.TrimIsInfix` | script.js:162 | the trimmed text is one contiguous piece of the input, with only white space before and after it |
| `JsBuiltins.TrimAround` | script.js:162 | white space around a text without white space at its ends is exactly what `trim` removes |
| `JsBuiltins.TrimFromWord` | script.js:162 | a text that starts with a character other than white space loses only white space at its end |
| `JsBuiltins.TrimBlank` | script.js:162 | a text of white space only trims to the empty text |
| `JsBuiltins.TrimUntrimmed` | script.js:162 | a text without white space at its ends is left alone |
| `JsBuiltins.Lower` | script.js:162 | `toLowerCase` keeps the length and maps every character through the per-character lower case |
| `JsBuiltins.LowerChar` | script.js:162 | the letters A to Z become a to z; every other character is left alone |
| `JsBuiltins.LowerKeepsSpace` | script.js:162 | lower-casing keeps white space where it was and adds none |
| `JsBuiltins.LowerIdempotent` | script.js:162 | lower-casing twice is lower-casing once |
| `JsBuiltins.ReplaceRuns` | script.js:162 | replacing the runs never makes a text longer |
| `JsBuiltins.ReplaceLeavesNone` | script.js:162 | with a fill that is not white space, no white space is left |
| `JsBuiltins.ReplaceNone` | script.js:162 | a text without white space is left alone |
| `JsBuiltins.ReplaceOneRun` | script.js:162 | a run of white space alone becomes one fill character |
| `JsBuiltins.ReplaceConcat` | script.js:162 | replacement works piece by piece when the cut is not inside a run of white space |
| `JsBuiltins.ReplaceWordThenRest` | script.js:162 | a word, a run of white space and a rest that starts with a word: the word is kept, the run becomes one fill, and the rest is replaced on its own |
| `JsBuiltins.ReplaceTwoWords` | script.js:162 | two words with one run of white space between them keep the words and get one fill between them |
| `JsBuiltins.NatToString` | script.js:197 | `String(n)`: decimal digits without a leading zero |
| `JsBuiltins.ParseNatToString` | script.js:197 | reading the digits back gives `n`, so distinct numbers print differently |

## Left out

- Smooth scrolling of anchor links: window scrolling, pixel offsets and the history API are browser effects.
- Loading and rendering blog posts: the loader's body is only a commented-out request, and the renderer is HTML templating.
- The writes to local storage, the `classList` and `style` changes, and listener registration: the model computes the keys, values and flags, not the effects.
- The label's strike-through style when a goal changes: presentation only.
- `setupScrollAnimations` and `loadUserPreferences`: `init` calls them, but they are not defined in `script.js`, so they are not part of this model.
- `Math.random`: the pick is a parameter in `0..n`, and floating point is not modelled.
- `setupQuotes` runs twice, once from `init` and once from a second page-load listener. The second run appends another quote tagged `4`, counts the first appended quote in `quotes.length`, and attaches a second click handler. The model sets up once and does not model two handlers running on one click.
- `parseInt` and the attribute selector compare `data-quote` as text. The model takes tags to be integers written in plain decimal, so the two agree; an unparsable tag (NaN) is not modelled.
- The `textContent` of a quote, a schedule item or a heading is taken as given; how the browser assembles it from child nodes is not modelled.
- `init` stops when a sidebar link has no `href`. `NavMenu.Highlight` models that as `ok` false. The later setup steps that never run are not chained to it.
- `StorageKeys.ClickHeader`: `closest('.section')` and `querySelector('h2')` returning null are one case (`heading` absent), since both throw at the same point.
- `StorageKeys.GoalKey`: the position is taken to be the checkbox's position among the generated ones. The handler actually numbers every `.goal-checkbox` on the page.
- `JsBuiltins.Lower`: lower-cases only the letters A to Z; JavaScript's `toLowerCase` follows the full Unicode case mapping.
- `JsBuiltins.LowerChar`: same ASCII-only restriction as `Lower`.
- Strings are sequences of Unicode characters. JavaScript strings are sequences of UTF-16 code units, so lengths and positions differ for characters outside the Basic Multilingual Plane.
- `insertBefore(additionalQuote, document.querySelector('.quote-nav'))` at script.js:238 throws `NotFoundError` when `.quote-nav` is not a child of `#quote-container`. It appends at the end when there is no `.quote-nav`. The model takes the insertion to succeed. It also takes the appended quote to be last in document order, which holds only when `.quote-nav` comes after every markup quote.

## Findings

| source | as written | input that shows it | evidently intended | confidence | as-written member | corrected member |
|---|---|---|---|---|---|---|
| script.js:241 | the start index is `floor(random * (n + 1))`, in `0..n`, while the pool is tagged `1..n+1` | 3 markup quotes tagged 1 to 3 and `random < 0.25`: the index is 0, no quote is shown, and the first "next" click dereferences null; the appended quote tagged 4 is never shown first | `floor(random * (n + 1)) + 1`, in `1..n+1`, so exactly one quote is visible and every quote can come first | high, not executed | `QuoteRotator.StartAsWrittenMisses` | `QuoteRotator.CorrectedStartShowsOne` |
| script.js:231 | the appended quote's tag is the constant `"4"`, while the click handler cycles through `1..quotes.length+1` | 2 markup quotes tagged 1 and 2: the pool is tagged 1, 2, 4, and a click from the quote tagged 2 asks for index 3, so every quote is hidden and the next click dereferences null | the tag `quotes.length + 1`, so the pool is tagged `1..n+1` for any number of markup quotes | medium, not executed | `QuoteRotator.AppendedTagLeavesGap` | `QuoteRotator.CorrectedAppendedTagFits` |
