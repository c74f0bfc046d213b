# Joe's Ice Cream flavor watcher: a Dafny model

`server.ts` is a Deno script. Once a day at 09:00 UTC it fetches the shop's home page. It collects the flavor listing of the Anaheim store and parses the listing's date. It then tests whether any flavor seen so far contains "peachy kiwi" and, if one does, builds an email for every configured recipient.

This project models the I/O-free part of that script:

- `scrape.dfy` (module `Scraper`) is the token collector of `scrape`. The page is given as the ordered list of `.et_pb_text_inner` containers, each with its full text and the texts of its spans. The collector keeps the containers whose lower-cased text contains "anaheim". It trims each of their span texts and appends the results, in document order, to one flat list. A fetch or parse that throws makes `scrape` return `undefined` (`None`).
- `job.dfy` (module `Job`) holds `job` and the module-level `result` object (class `FlavorResult`). `result` is created once and never reset. A run pops the last scraped token and parses the new last token as the date. It appends the tokens at indices 3 to n-3 of the scraped list to `result.flavors`, then tests the whole accumulated list for the keyword. It calls `sendEmail` only on a match and logs `result` either way. When `scrape` returned `undefined`, the `assert` aborts the run before `result` is touched.
- `notify.dfy` (module `Notify`) holds `sendEmail` from the recipient guard on. It builds one message per recipient, in list order, with the fixed sender, subject and body.
- `config.dfy` (module `Config`) computes `RECEIVER_EMAILS`. As written, it is always `undefined` (see Findings).
- `text.dfy` (module `Text`) holds the string operations the script uses: `trim`, `toLowerCase`, `includes`, `split` and `join`.
- `wrappers.dfy` holds `Option`, which stands for JavaScript's `undefined`.

Points about the code worth stating up front:

- There is no minimum-length check on the scraped list. The only guard is the `assert` against `undefined`, and an empty array passes it.
- A run appends the tokens at original indices 3 to n-3. That is n-5 tokens, or none below six tokens. For an eight-token listing, the date is therefore parsed from the seventh token, and the fourth to sixth tokens become flavors.
- `result` is global and never cleared. So flavors accumulate across the runs of one process, and a match found once keeps matching on every later run of the same process. A restart creates a fresh `result`.
- The match looks for the single fixed phrase "peachy kiwi", lower-cased.

## Model

| member | source | states |
|---|---|---|
| `Text.TrimStartSpec` | server.ts:83 | trimming the start leaves a suffix of the input; everything removed is ECMAScript white space, and the result does not start with white space |
| `Text.TrimEndSpec` | server.ts:83 | trimming the end leaves a prefix of the input; everything removed is white space, and the result does not end with white space |
| `Text.TrimSpec` | server.ts:83 | `trim()` returns a slice of the input with only white space outside it and no white space at either of its ends |
| `Text.TrimIdempotent` | server.ts:83 | trimming an already trimmed string changes nothing |
| `Text.TrimEach` | server.ts:82-84 | mapping `trim` over a list keeps its length and order, and element k of the result is the trimmed element k |
| `Text.Lower` | server.ts:79 | lower-casing keeps the length, maps each character independently, and leaves no upper-case ASCII letter |
| `Text.LowerIdempotent` | server.ts:105 | lower-casing twice is lower-casing once |
| `Text.Split` | server.ts:12 | `split(",")` gives one more piece than there are commas, and no piece contains a comma |
| `Text.JoinSplit` | server.ts:12 | joining the pieces of a split with the separator gives back the original string |
| `Text.SplitJoin` | server.ts:52 | for a non-empty list none of whose parts contains the separator, splitting the join at its one-character separator gives back the parts (the empty list joins to `""`, which splits to `[""]`) |
| `Scraper.Scrape` | server.ts:65-92 | `scrape` returns `undefined` exactly when the fetch or parse fails; otherwise its nested loops return the collected token list of the page |
| `Scraper.CollectedAppend` | server.ts:78-86 | the tokens of two consecutive runs of containers are the tokens of the first followed by those of the second |
| `Scraper.NonMatchingIgnored` | server.ts:79-85 | a container whose text does not mention "anaheim" contributes nothing, wherever it stands |
| `Scraper.NoMatchNoTokens` | server.ts:78-88 | with no container mentioning "anaheim", the result is the empty list, not a failure |
| `Scraper.CollectedMembership` | server.ts:78-86 | a token is collected if and only if it is the trimmed text of some span of some container that mentions "anaheim" |
| `Scraper.CollectedAreTrimmed` | server.ts:83 | every collected token is already trimmed |
| `Notify.MessagesFor` | server.ts:47-53 | one message per recipient, in list order: `to` is that recipient, and sender, subject and text are the same for all |
| `Notify.BodyListsFlavors` | server.ts:52 | the body starts with "Flavors:\n\n" and ends with the date text; when the flavor list is non-empty and no flavor contains a line break, the section between them, split at line breaks, gives back the flavors. A flavor whose span text holds an inner line break (trim removes only the ends) does not split back |
| `Notify.SendEmail` | server.ts:42-62 | nothing is built when the recipient list is `undefined`; otherwise the loop builds exactly the messages of `MessagesFor` for the sender, subject and body |
| `Config.ReceiverEmailsAlwaysAbsent` | server.ts:10-13 | as written, `RECEIVER_EMAILS` is `undefined` whatever the environment holds, because `forEach` returns `undefined` |
| `Config.ReceiverEmailsIntended` | server.ts:10-13 | the intended list is present exactly when the variable is set; it has one entry per comma-separated piece, and entry k is piece k trimmed |
| `Config.IntendedRecipientsRoundTrip` | server.ts:10-13 | when the pieces carry no surrounding white space, the intended list is the split itself, and joining it with commas gives back the variable's value |
| `Config.TwoAddresses` | server.ts:10-13 | for comma-free, already trimmed addresses `a` and `b`, the value `a,b` gives `undefined` as written, while the intended list is `[a, b]` |
| `Job.FlavorTokens` | server.ts:97-102 | a run appends max(0, n-5) tokens, and appended token k is scraped token k+3: the first three and last two tokens never become flavors |
| `Job.PoppedTokenUnused` | server.ts:97-98 | the popped last token affects neither the date nor the flavors; the date token is the last one left after the pop |
| `Job.EightTokenListing` | server.ts:97-102 | for eight scraped tokens, the date token is the seventh and the flavors are the fourth to sixth |
| `Job.FoundConcat` | server.ts:104-106 | the match over old and new flavors together holds if and only if it holds over either part, so a match from an earlier run persists |
| `Job.MatchIgnoresCase` | server.ts:104-106 | a flavor matches exactly when its lower-cased form matches |
| `Job.PhraseAnywhereMatches` | server.ts:104-106 | a flavor that contains "peachy kiwi" in any letter case, at any position, matches |
| `Job.FlavorResult.constructor` | server.ts:20-23 | `result` starts with no flavors and a null date |
| `Job.FlavorResult.Job` | server.ts:94-113 | a failed scrape aborts the run with `result` unchanged. Otherwise the run appends `FlavorTokens` of the scraped list, keeping the old flavors as a prefix, and sets the date from `DateToken`. It reports the match over the whole accumulated list, calls `sendEmail` only on a match, and logs the new `result` |

## Left out

- Fetching the page and parsing it with DOMParser and cheerio are network I/O and foreign libraries. The page is an input: the ordered containers with their text and span texts, or `None` when the fetch or parse threw.
- `parseDateString` wraps date-fns `parse`, a foreign, locale-dependent library. A date is represented by the token it was parsed from. The model therefore does not capture that two different tokens may parse to the same date, or to the same invalid date.
- Job.FlavorResult.Job: when the scraped list has fewer than two tokens, `parseDateString` receives `undefined`, and the model assumes it returns a date (`ParsedFrom(None)`), so the run goes on to the match, the mail and the log. If date-fns throws on `undefined` instead, the real run ends at server.ts:98 with `result` unchanged: no match test, no mail and no log.
- Turning a `Date` into text inside the body is a foreign `toString`. It is the `render` parameter of `Job.FlavorResult.Job`, and a null date renders as "null".
- Creating the nodemailer transport, `sendMail` and its asynchronous callback are SMTP I/O. The model stops at the list of messages built.
- `Deno.env` lookups are environment configuration. `SMTP_USER` is a parameter that renders as "undefined" when unset, and `SMTP_PORT` is not modelled.
- `Deno.cron` scheduling is runtime plumbing. So is the rejected promise when the `assert` throws inside `job`: nothing awaits it, and by default Deno ends the process on an unhandled rejection, after which a restart starts from a fresh `result`.
- Console output is I/O. The object `job` logs is returned as the `logged` part of the run's outcome, but the "No destination emails found" line is not modelled.
- Runs overlapping in time are not modelled: each call of `Job` is one whole run.
- Text.Lower: lower-cases ASCII letters only. JavaScript's `toLowerCase` maps all of Unicode, so a non-ASCII letter such as the Kelvin sign, which lower-cases to "k", is not folded.
- The model works on Unicode scalar values, while JavaScript strings are UTF-16 code units. Lone surrogates and code-unit indexing are not modelled.

## Findings

| source | as written | input that shows it | evidently intended | confidence | as-written member | corrected member |
|---|---|---|---|---|---|---|
| server.ts:10-13 | `RECEIVER_EMAILS` is `env?.split(",").forEach((s) => s.trim())`. `forEach` returns `undefined`, so the list is always `undefined`, the guard at server.ts:42 always returns, and no email is ever built | `RECEIVER_EMAILS="a@x.com,b@y.com"` gives `undefined` (`Config.TwoAddresses`, `Config.ReceiverEmailsAlwaysAbsent`) | `.map((s) => s.trim())`: the list of trimmed addresses, here `["a@x.com", "b@y.com"]` | high (not executed) | `Config.ReceiverEmails` | `Config.ReceiverEmailsIntended` |

`Job.FlavorResult.Job` takes the recipient list as a parameter. Given the configured value, it builds no messages. Given the corrected list, it builds one message per address.
