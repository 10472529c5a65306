# AdonisJS v6 documentation site: sponsorship gate, static export and sidebar

This project models the program logic of the AdonisJS v6 documentation site.
The site's framework and library code is not modelled.

- **Sponsorship oracle** (`isSponsoring`). A GitHub username is let in when its lower-cased form is on a fixed allow-list. Otherwise it is let in when the viewer's sponsorship tier costs at least 19 dollars a month. Anything that throws while GitHub is asked lets the user in (fail-open).
- **The documentation server.**
  - The OAuth callback turns a user back with a flash message, or signs them in. A user is turned back for access denied, a state mismatch, a provider error, or being no sponsor, checked in that order. Signing in writes the encrypted `oauth_token` session cookie.
  - The catch-all route redirects `/` to the first page. When the site is statically hosted (`FLY_APP_NAME` set), it serves the pre-rendered page only with a session. Otherwise it renders the entry of the first collection that has the URL, or answers "Page not found".
  - The login page shows and clears the flash message. Starting a login redirects to GitHub.
- **The static export** (`exportHTML`, `generateOgImage`). Each entry of each collection is written to `dist`. Its `og:description` is then extracted, wrapped at white space into lines of at most 60 characters (an unbroken run longer than that keeps all but its last 60 characters in one line), and the first three lines and the title's first 24 characters are put into an SVG template. A PNG is made unless it is already on disk. An `og:image` tag pointing at the published PNG is inserted before `</head>`. A failing entry is logged and the export goes on.
- **The sidebar** (`getSections`). The entries of a collection are grouped by `meta.category`, and the current entry's section and item are marked active.

The model is written in Dafny, one module per concern:

- `Wrappers` holds Option and Result.
- `JsString` holds the JavaScript string operations the code relies on.
- `Content` holds entries and collections.
- `Sponsorable` holds the sponsorship oracle.
- `Serve` holds the server.
- `OgImage` holds the Open Graph image generator.
- `Export` holds the export loop.
- `Sections` holds the sidebar.

Stateful code keeps the source's form:

- The HTTP response is a class whose methods append effects. The handlers are methods proved equal to pure decision functions.
- The callback handler takes the allow-list and the image generator takes the rule that fills the first line slot as parameters. The source's own choices, the list with `JASON-SHQ` as written and `lines[0]` without a fallback, are `AllowedUsernamesAsWritten` and `AsWritten`; the corrected ones are proved beside them. The export loop calls the generator with `AsWritten`.
- The catch-all route keeps its search loop.
- `exportHTML` keeps its two nested loops. It is proved equal to a fold over the entries in collection-major order.

## Model

| member | source | states |
|---|---|---|
| Content.FindByPermalink | bin/serve.ts:184 | A found entry belongs to the collection and has that permalink; None means no entry of the collection has it |
| Content.FlattenPosition | bin/build.ts:109-110 | The j-th entry of the i-th collection is visited after every entry of the earlier collections, at exactly that offset (collection-major order) |
| JsString.ToLower | src/sponsorable.ts:34 | Same length; every ASCII upper-case letter becomes the character 32 code points later (its lower-case letter), every other character is unchanged, and no upper-case letter is left |
| JsString.ToLowerIdempotent | src/sponsorable.ts:34 | Lower-casing twice is lower-casing once |
| JsString.UpperNeverLowered | src/sponsorable.ts:34 | No lower-cased string equals a string holding an upper-case letter |
| JsString.Trim | bin/build.ts:70 | The result neither starts nor ends with white space or a line terminator, and is a slice of the input with only such characters removed on both sides |
| JsString.Prefix | bin/build.ts:76 | `slice(0, n)`: at most n characters, exactly n when there are that many, the input's own leading characters |
| JsString.IndexOf | bin/build.ts:97 | The first occurrence of the pattern, and None exactly when it occurs nowhere |
| JsString.ExpandLiteral | bin/build.ts:76-79 | `Expand` (GetSubstitution) inserts a replacement without `$` verbatim |
| JsString.ExpandLiteralThen | bin/build.ts:76-79 | `Expand` copies `$`-free text at the front of a replacement and expands the rest after it |
| JsString.ExpandDollarPatterns | bin/build.ts:76-79 | In `Expand`, `$$` gives a dollar sign, `$&` the matched text, `` $` `` the text before the match and `$'` the text after it, each followed by the expansion of the rest |
| JsString.ReplaceFirst | bin/build.ts:95-97 | `String.replace` with a string pattern: unchanged without an occurrence; otherwise the text before the first occurrence, the replacement with its `$` patterns expanded, then the text after the occurrence; a `$`-free replacement goes in as it is |
| JsString.ReplaceAfter | bin/build.ts:74-79 | When the pattern's first character does not occur in the text before it, the occurrence right after that text is the one replaced |
| Sponsorable.TryBlock | src/sponsorable.ts:49-62 | The try block throws exactly when the request fails or the response has no user, and it can say yes only for a tier price |
| Sponsorable.Decide | src/sponsorable.ts:33-67 | For a given allow-list: a listed lower-cased name is let in; a user is kept out exactly when not listed and the sponsorship or tier is missing or the price is under 19 |
| Sponsorable.IsSponsoringAsWritten | src/sponsorable.ts:24-67 | isSponsoring with the list as written: a user is kept out exactly when the lower-cased name is not on that list and the sponsorship or tier is missing or the price is under 19 |
| Sponsorable.IsSponsoring | src/sponsorable.ts:33-67 | isSponsoring with the corrected list: a user is kept out exactly when the name is not listed in any letter case and the sponsorship or tier is missing or the price is under 19 |
| Sponsorable.AllowListedNeedsNoQuery | src/sponsorable.ts:34-36 | An allow-listed user is let in, the same whatever the query would have returned |
| Sponsorable.MissingSponsorshipDenies | src/sponsorable.ts:58-60 | No sponsorship, or a sponsorship without a tier, keeps a user who is not allow-listed out |
| Sponsorable.PriceThreshold | src/sponsorable.ts:62 | For a user who is not allow-listed, a price lets them in iff it is at least 19; 19 is in and 18 is out |
| Sponsorable.PriceMonotone | src/sponsorable.ts:62 | A price at least as high as one that lets a user in also lets them in |
| Sponsorable.FailOpen | src/sponsorable.ts:49-66 | Whatever the try block throws (a failed request or a missing user), the user is let in |
| Sponsorable.AsWrittenEntryUnreachable | src/sponsorable.ts:24 | The list holds "JASON-SHQ", and no lower-cased username equals it |
| Sponsorable.AsWrittenDeniesListedUser | src/sponsorable.ts:24-36 | The user JASON-SHQ without a sponsorship is refused by the list as written and let in by the corrected list |
| Sponsorable.CorrectedEntriesReachable | src/sponsorable.ts:4-27 | Every entry of the corrected list is matched by its name in any letter case |
| Sponsorable.CorrectedIsCaseInsensitive | src/sponsorable.ts:34 | The corrected lookup holds exactly when the name equals some listed name up to ASCII letter case |
| Serve.Response.Cookie | bin/serve.ts:108 | Records one flash-cookie write after the earlier effects |
| Serve.Response.EncryptedCookie | bin/serve.ts:160-163 | Records one encrypted-cookie write with its value, maximum age and httpOnly flag |
| Serve.Response.ClearCookie | bin/serve.ts:84 | Records the clearing of one cookie |
| Serve.Response.Redirect | bin/serve.ts:109 | Records one redirect to the given URL |
| Serve.Response.Send | bin/serve.ts:180 | Records what the handler returns as the response body |
| Serve.Message | bin/serve.ts:65-71 | No contract of its own: the flash text of each reason is its `errorMessages` string; `Serve.NonSponsorIsToldSo` and `Serve.RejectionFlashShownOnce` state where the texts are shown |
| Serve.Callback | bin/serve.ts:100-165 | For a given allow-list (the handler's own is the list as written): denial, state mismatch and provider error are checked in that order, and the first that holds decides the reason; a user is signed in exactly when none holds and the username is missing or the oracle over that list says yes; the signed-in login is the profile's |
| Serve.TurnBack | bin/serve.ts:106-111 | Turning a callback back appends exactly two effects to the response: the flash cookie carrying the given message, then a redirect to the login page |
| Serve.AuthenticateCallback | bin/serve.ts:100-165 | For a given allow-list, the handler appends exactly the effects of the decision of `Serve.Callback` and nothing else |
| Serve.CallbackWritesOneCookieAndRedirectsOnce | bin/serve.ts:106-164 | Every way through the callback writes exactly one cookie and redirects exactly once |
| Serve.OutcomeWritesOneCookieAndRedirectsOnce | bin/serve.ts:106-164 | `CallbackEffects` of every outcome is one cookie write and one redirect |
| Serve.SessionCookieOnlyOnSuccess | bin/serve.ts:152-164 | The encrypted session cookie is written iff the user is signed in; it then holds the username for 7 days, is httpOnly, and is followed by the redirect to /docs/installation; otherwise a flash message and a redirect to /authenticate |
| Serve.OutcomeSessionCookie | bin/serve.ts:152-164 | `CallbackEffects`: a sign-in writes the 7-day httpOnly `oauth_token` cookie with its login, then redirects to /docs/installation; a rejection writes the flash message of its reason, then redirects to /authenticate |
| Serve.NonSponsorIsToldSo | bin/serve.ts:152-157 | A named user the oracle refuses gets the sponsors-only message |
| Serve.MissingUsernameSkipsOracle | bin/serve.ts:142-147 | Without a username the outcome does not depend on the query's result, and the user is signed in once the three checks pass |
| Serve.AsWrittenCallbackTurnsBackListedUser | bin/serve.ts:142-157 | The handler as written turns the listed user `JASON-SHQ` without a sponsorship back as no sponsor; with the corrected list it signs them in |
| Serve.FirstCollectionWith | bin/serve.ts:183-188 | The first collection, in order, whose permalink lookup succeeds; None exactly when none does |
| Serve.Gate | bin/serve.ts:167-191 | `/` redirects to the first page before anything else; in static mode it is a download of `dist<url>.html` with a session and a redirect to the login page without one; outside static mode a URL that some collection has is rendered, from the first collection having it, and an entry is rendered only then; "Page not found" exactly when no collection has it |
| Serve.CatchAll | bin/serve.ts:167-191 | The route's loop appends exactly the effect `Serve.Gate` decides, once |
| Serve.NoContentWithoutSession | bin/serve.ts:172-175 | In static mode without a session every URL ends in a redirect: `/` to the first page, anything else to the login page |
| Serve.StaticModeIgnoresCollections | bin/serve.ts:172-181 | In static mode the answer is the same for any collections and is never a rendered entry |
| Serve.ShowLogin | bin/serve.ts:82-86 | GET /authenticate clears the flash cookie and renders the login view with the flash message it read |
| Serve.StartLoginEffects | bin/serve.ts:88-98 | Starting a login redirects exactly once: when the redirect to GitHub succeeds it is that redirect alone, with no cookie; when it fails it writes the `flash_messages` cookie "Unable to redirect to Github" and then redirects to /authenticate |
| Serve.StartLogin | bin/serve.ts:88-98 | POST /authenticate appends exactly the effects of `Serve.StartLoginEffects` |
| Serve.RejectionFlashShownOnce | bin/serve.ts:82-86 | After a rejected callback, the next login page renders the reason's message and clears it; the browser's session cookie is left as it was |
| Serve.SignedInSessionAtTheGate | bin/serve.ts:159-175 | After signing in, the static pages open iff a username was read; a session written for a missing username is turned back to the login page |
| OgImage.CaptureAt | bin/build.ts:47 | A match at a position is a whole og:description tag there, with a capture free of line terminators |
| OgImage.CaptureIsLongestTag | bin/build.ts:47 | The greedy capture is the longest such tag at that position, and there is none exactly when no tag starts there |
| OgImage.FirstCapture | bin/build.ts:47 | The leftmost position where the expression matches, and None exactly when it matches nowhere |
| OgImage.Description | bin/build.ts:47-48 | The description has no line terminator; it is '' when nothing matches; a non-empty description is the content of an og:description tag in the page |
| OgImage.DescriptionIsFirstCapture | bin/build.ts:47-48 | The description is the capture of the leftmost position where the expression matches, wherever that is in the page |
| OgImage.DescriptionReadBack | bin/build.ts:47-48 | A page that starts with an og:description tag on a line of its own gives that tag's content back |
| OgImage.WrapMatchAt | bin/build.ts:71 | A match of `(.{0,60})(?:\s\|$)` at a position: a capture of at most 60 characters free of line terminators, then one white-space character or the end of the input |
| OgImage.WrapMatchIsLongest | bin/build.ts:71 | The capture is the longest that the rest of the pattern accepts (greedy backtracking) |
| OgImage.DropEmpty | bin/build.ts:72 | `filter(Boolean)`: no piece left is empty, a piece is kept iff it is non-empty, and there are no more pieces than before |
| OgImage.DropEmptyKeepsOrder | bin/build.ts:72 | `filter` keeps the order: filtering a concatenation is filtering each part in turn |
| OgImage.DropEmptySingle | bin/build.ts:72 | A single piece is kept exactly when it is not empty |
| OgImage.Split | bin/build.ts:71 | `split` with the wrapping expression: the empty string gives no pieces; otherwise the pieces alternate gaps free of white space with captures of at most 60 characters free of line terminators, every piece is a slice of the input, and together they hold the input's visible characters in order |
| OgImage.WrapLines | bin/build.ts:69-72 | `description.trim().split(…).filter(Boolean)`: every line is non-empty and is a slice of the trimmed description |
| OgImage.SplitFromShape | bin/build.ts:71 | The split loop `SplitFrom` alternates gaps free of white space with captures of at most 60 characters free of line terminators |
| OgImage.SplitFromVisible | bin/build.ts:71 | The split loop `SplitFrom` loses only white space: its pieces put together hold the input's visible characters in order |
| OgImage.SplitFromSlices | bin/build.ts:71 | Every piece the split loop `SplitFrom` pushes is a slice of the input from where it started |
| OgImage.MatchWhereWordFits | bin/build.ts:71 | When no stretch without white space is longer than 60 characters, the wrapping expression matches at every position |
| OgImage.SplitFromFits | bin/build.ts:71 | When every word fits, each match starts where the last one ended, so every piece of the split loop is at most 60 characters without a line terminator |
| OgImage.SplitFromPacks | bin/build.ts:71 | When every word fits, the split loop packs greedily: each line it pushes is the longest capture acceptable where it starts, so no longer stretch of at most 60 characters ending at white space or the end could have been that line |
| OgImage.OneLineSplit | bin/build.ts:71 | Text of at most 60 characters without a line terminator splits into one capture between two empty gaps |
| OgImage.WrapLinesBounded | bin/build.ts:69-72 | Every line of `WrapLines` (trim, split, filter) is non-empty, and is either at most 60 characters without a line terminator or a run without white space |
| OgImage.WrapLinesKeepText | bin/build.ts:69-72 | The lines of `WrapLines` hold exactly the description's visible characters in order |
| OgImage.WrapLinesFit | bin/build.ts:69-72 | A description with no stretch of more than 60 characters without white space is wrapped into lines of at most 60 characters, none holding a line terminator |
| OgImage.ShortDescriptionIsOneLine | bin/build.ts:69-72 | A description whose trimmed text has at most 60 characters and no line terminator is exactly one line, that text: words that fit together are not broken apart |
| OgImage.EmptyDescriptionHasNoLines | bin/build.ts:69-72 | An empty description gives no lines |
| OgImage.LongWordWrapsAtTail | bin/build.ts:69-72 | A word longer than 60 characters without white space becomes two lines: everything but its last 60 characters, then those 60 |
| OgImage.AsWrittenEmptyDescriptionShowsUndefined | bin/build.ts:77 | As written, a page without a description puts the text "undefined" in the first line slot |
| OgImage.LineSlotsAsWritten | bin/build.ts:77-79 | As written: the first slot gets the first line, or the text "undefined" without one; the second and third get their line or '' |
| OgImage.LineSlots | bin/build.ts:77-79 | Each slot holds the line of its number, or '' when there is no such line |
| OgImage.SlotsUseFirstThreeLines | bin/build.ts:77-79 | Lines after the third do not matter; every slot text is one of the lines or ''; a page without a description fills all three slots with '' |
| OgImage.SlotsAgreeWhenThereIsALine | bin/build.ts:77-79 | The corrected slots and the slots as written agree whenever there is a first line |
| OgImage.SvgRulesAgreeWithALine | bin/build.ts:77-79 | `OgSvg`: the SVG as written and the corrected SVG are the same for every page whose description gives a line |
| OgImage.FillTemplate | bin/build.ts:74-79 | The chain of four `replace` calls: a template holding none of the four placeholders comes back unchanged |
| OgImage.TitleSlotGetsFirst24 | bin/build.ts:76 | The title slot's first occurrence is replaced by the title's first 24 characters at the most, and the rest of the template is kept |
| OgImage.TitleMatchPatternRepeatsSlot | bin/build.ts:76 | As written, a title `a$&b` of at most 24 characters, with `a` and `b` free of `$`, puts the placeholder `{{ title }}` itself back into the template between `a` and `b` |
| OgImage.ExpandMatchBetween | bin/build.ts:76 | `$&` between two `$`-free texts expands to the matched text between them |
| OgImage.FillTemplateInPlace | bin/build.ts:74-79 | `FillTemplate`: a template holding the four placeholders in order, with no `{` in the text between them, gets the title's first 24 characters and the three slot texts each in its placeholder's place, the rest kept, when those texts hold no `{` or `$` |
| OgImage.ReplaceFour | bin/build.ts:74-79 | Four chained first-occurrence replacements replace each pattern in place when each pattern starts with a character that the text before it does not hold |
| OgImage.ImagePath | bin/build.ts:58-59 | The PNG path is `public/og/`, then the slug, then `.png`, and the slug can be read back from it |
| OgImage.ImagePathInjective | bin/build.ts:58-59 | `ImagePath` (`public/og/<slug>.png`) gives different slugs different paths |
| OgImage.ImageUrl | bin/build.ts:95 | A path starting with `public/` has that prefix replaced by the pages.dev host |
| OgImage.ImageUrlOfPath | bin/build.ts:95 | The image URL is the pages.dev host followed by `og/<slug>.png` |
| OgImage.InjectTag | bin/build.ts:96-97 | `html.replace('</head>', tag + '</head>')`: a page without `</head>` is unchanged, and whatever the URL holds the page up to its first `</head>` is kept |
| OgImage.InjectTagPlacement | bin/build.ts:96-97 | `InjectTag`: a page without `</head>` is unchanged; otherwise the og:image tag is inserted immediately before the first `</head>` and nothing else changes |
| OgImage.TaggedPagePlacement | bin/build.ts:95-97 | The rewritten page is the original with the tag for the published PNG inserted before its first `</head>`, or unchanged without one |
| OgImage.GenerateOgImage | bin/build.ts:41-99 | For a given slot rule (the source's is `AsWritten`): the PNG path is `public/og/<slug>.png`; the PNG is attempted iff that path is not on disk and made iff the attempt succeeds; the SVG is the template filled by that rule from the title and the wrapped description; the page gets its og:image tag whatever happened to the PNG |
| Export.ExportEntry | bin/build.ts:111-117 | One entry's try block, with the image generated by the slot rule as written, or its catch block when writing or reading the page throws, is exactly one step of the export fold |
| Export.ExportHTML | bin/build.ts:104-120 | The nested loops compute the export fold over the entries in collection-major order |
| Export.StepLog | bin/build.ts:109-117 | `Step`: every entry adds exactly its own log line after the earlier ones: created with the written path when writing and reading back succeed, failed with its permalink otherwise |
| Export.RunAppend | bin/build.ts:109-110 | `Run`: exporting `a` and then `b` is exporting `a + b` |
| Export.RunLog | bin/build.ts:109-117 | `Run` gives one log line per entry, in order; a failing entry is logged with its permalink and the entries after it are still processed |
| Export.EntryLoggedInPlace | bin/build.ts:109-117 | The log line of the j-th entry of the i-th collection sits after the lines of all earlier collections and says what happened to that entry |
| Export.RunKeepsImagesFresh | bin/build.ts:58-87 | The PNGs on disk are exactly those of the start and those the export made; the ones made are distinct and none was on disk at the start |
| Export.ImagesMadeOnce | bin/build.ts:58-87 | The PNGs made are distinct, none was on disk at the start, and everything on disk at the start is still there |
| Export.PagesIgnoreImages | bin/build.ts:92-98 | The log and the rewritten pages do not depend on which PNGs were on disk at the start |
| Export.RerunMakesNoImages | bin/build.ts:58-63 | Exporting again over the first export's files makes no PNG, changes nothing on disk, and gives the same log and pages |
| Sections.FilterKeyMembers | src/bootstrap.ts:40-42 | The entries of a key are entries of the collection whose `GroupKey` (category, or '' without one) is that key |
| Sections.GroupBy | src/bootstrap.ts:42 | `groupBy('meta.category')`: every group holds at least one entry, and there are no more groups than entries |
| Sections.GroupByPartitions | src/bootstrap.ts:40-42 | `GroupBy` gives distinct keys, each group is exactly the entries of its key in collection order, and each key that occurs has its group |
| Sections.ItemsFor | src/bootstrap.ts:46-52 | One item per entry, in order, with href the permalink, title the title, and active iff the permalink is the current entry's |
| Sections.GetSections | src/bootstrap.ts:39-55 | Section titles are distinct; a section is active iff its title is the current entry's category; its items are the entries of its category in collection order, and there is at least one; every entry's category has its section |
| Sections.AtMostOneActive | src/bootstrap.ts:45 | At most one section is active |
| Sections.CurrentIsShownActive | src/bootstrap.ts:45-50 | An entry of the collection with a category is an active item of an active section |

## Left out

- File I/O is left out. The model does not cover reading the SVG template (it is a parameter), `mkdir` of `public/og`, `existsSync` (a set of paths on disk), `readFile` of the exported page, or `writeFileSync`. A throwing `writeToDisk` or `readFile` is modelled as an entry that fails. A throwing `writeFileSync` after the PNG is made is not modelled.
- sharp rasterisation and its 1.1 float resize factor are left out. Whether the PNG is written is an input. The SVG handed to sharp is computed, but not rendered.
- `string.slug`, `entry.writeToDisk`, `entry.render`, `response.download` and `app.makePath` are library behaviour. The slug function is a parameter of the site. The file path and page that `writeToDisk` produces are an input per entry.
- The GraphQL client and its query-string interpolation are left out. The response is an input (`QueryOutcome`). Prices are whole dollars.
- The GitHub driver's flags and profile are left out; they are an input (`GithubCallback`). A throwing `gh.user()` and the driver's own state cookie are not modelled.
- Cookie encryption and signing are left out: cookies are kept as plain values. The gate sees the decrypted session cookie as a possibly undefined string.
- Logging is left out. `console.error` and the export's action logger are recorded only as the export's log of actions.
- Framework bootstrapping, environment validation, providers, the static-file and Vite setup, Markdown rendering and the client-side UI are left out, as configuration over libraries.
- Text is modelled as sequences of characters. UTF-16 surrogate pairs, which JavaScript counts as two units in `slice(0, 24)` and `.{0,60}`, are not distinguished.
- `JsString.ToLower` lower-cases ASCII letters only. The allow-list and GitHub logins are ASCII.
- The collection library is not part of this model. The model assumes that `findByPermalink` returns the first entry with the permalink. It also assumes that `groupBy('meta.category')` keys an entry without a category by '' and orders groups by first appearance.
- Sections.GetSections: does not state the order of the sections, which in the source is the key order of a JavaScript object (integer-like keys first). The model returns a sequence ordered by first appearance.
- OgImage.TaggedPagePlacement: assumes the slug holds no `$`, since `$` would be taken as a substitution pattern by `String.replace`. `string.slug` does not produce `$`.
- OgImage.TitleSlotGetsFirst24: states the title slot's contents only for a title without `$`. `String.replace` expands `$` patterns in the title and in the line texts. `OgImage.TitleMatchPatternRepeatsSlot` proves what `$&` in a title does, and `JsString.ReplaceFirst` states the general expansion.
- OgImage.FillTemplateInPlace: covers only texts free of `{` and `$`, between placeholders free of `{`. A title or line holding `{{ line1 }}` would move later replacements into it.
- Serve.SignedInSessionAtTheGate and Serve.CallbackWritesOneCookieAndRedirectsOnce: assume that `encryptedCookie('oauth_token', username)` with an undefined username is still written and replaces the browser's session cookie. The framework's cookie serializer, which may skip undefined values, is not part of this model.
- The comment at bin/build.ts:66 speaks of lines of 40 characters, while the code wraps at 60. The model follows the code.
- An unbroken run of more than 60 characters is not cut into 60-character chunks. The split keeps it as one piece with its last 60 characters after it (`OgImage.LongWordWrapsAtTail`). The model follows the code here, not the intent of chunking such text.
- The og:image tag carries only the PNG's URL; no category is taken from other tags. The model follows the code.

## Findings

| source | as written | input that shows it | evidently intended | confidence | as-written member | corrected member |
|---|---|---|---|---|---|---|
| src/sponsorable.ts:24 | The allow-list entry `'JASON-SHQ'` is in upper case, but line 34 looks up `username.toLowerCase()`, so the entry can never match | username `JASON-SHQ` (or `jason-shq`) with no sponsorship is refused | every listed user is let in, whatever the letter case of the login | not executed | Sponsorable.AsWrittenDeniesListedUser | Sponsorable.CorrectedIsCaseInsensitive |
| bin/build.ts:77 | `lines[0]` is `undefined` when the description is empty or missing, and `String.replace` writes the text "undefined" into the image | a page without an og:description tag | an empty first line, as lines 78-79 do for the other two slots with `\|\| ''` | not executed | OgImage.AsWrittenEmptyDescriptionShowsUndefined | OgImage.SlotsUseFirstThreeLines |
