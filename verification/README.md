# decentral-perk: token-count pipeline and Open Frames shim

This project models the logic in `api/index.tsx` of decentral-perk. That file is a Farcaster frame and cast action. It reports how many cards of the "Decentral Perk Rewards Card" NFT collection a user holds. The model covers five pieces:

- **Address normalisation.** The user's verified Ethereum addresses are lower-cased, in order, with no de-duplication (`Aggregation`).
- **Token count collection and sum.** There is one ownership lookup per address. A lookup that finds no tokens or throws contributes 0, and the counts are added up (`Aggregation`).
- **The reply formatter and the result sentence.** The cast action replies `@name - N DP #5` when that fits in 30 characters and `N DP #5` otherwise. The result card says `@name, you have (N) $DP#5 tokens in your wallet.` (`Message`, with decimal rendering in `Decimal`).
- **The two handlers.** The cast action is gated by the frame-message verifier: 401 `Unauthorized`, 500 when the identity lookup fails, 200 with the reply otherwise. The result frame is driven by the typed username and renders a result card, a not-found card or an error card (`Handlers`).
- **The Open Frames shim.** This middleware runs on every HTML response. It does four things:
  - collects the `<meta …/>` tags;
  - runs them through the chain of `fc:frame:*` → `of:*` substitutions (`FrameRewrite`, with its laws in `RewriteLaws`);
  - appends the three `of:accepts:*` tags;
  - inserts the result right after the first `<head>` (`OpenFrames`).

External services are parameters of the model:

- the frame-message verifier is a `Verdict`;
- the identity service is a function from fid to an optional user;
- the username search is a function from query to an optional list of users;
- the ownership service is a function from a request's position and address to a `Lookup`, so each request gets its own answer, even a repeated request for the same address.

Each handler also returns the list of service calls it made (`Services`), logged as each call is made, so "nothing is called" and "one call per address, in order" are statements about the result.

Notes on the code:

- **Reply length.** The 30-character check only chooses between the decorated reply and the plain `N DP #5`; nothing bounds the plain reply. With every digit of the total written out, the reply fits exactly when the total is below 10^24 (`Message.FormatBounds`). JavaScript writes totals of 10^21 and above in exponent form, so the reply the code sends always fits (see "Left out").
- **Addresses form a list, not a set.** A repeated address is looked up again and its count is added again.
- **Not-found card.** The card also appears when the search reply has no `result` or `users` field. The model treats that reply as an empty list.
- **Missing input.** Without typed text the search query reads `undefined` (a template literal), while the card's `@{username}` shows nothing after the `@` (JSX renders an absent value as nothing).

## Model

| member | source | states |
|---|---|---|
| `Aggregation.Normalize` | api/index.tsx:131 | the normalised list has the same length and order as the input, each element is the lower-cased address, and no element holds an upper-case letter |
| `Aggregation.NormalizeMergesCaseVariants` | api/index.tsx:131 | two entries of the address list normalise to the same address if and only if they are equal up to letter case |
| `Aggregation.NormalizeIdempotent` | api/index.tsx:279 | normalising already normalised addresses again changes nothing |
| `Aggregation.LookupAll` | api/index.tsx:136-146 | there is exactly one ownership request per address, in address order, and the i-th request gets the answer given to it |
| `Aggregation.CollectCounts` | api/index.tsx:134-160 | the loop makes one request and pushes one count per address: for the i-th address, the token count when its request found tokens, 0 when it found none or threw; the counts are exactly `Counts` of the outcomes, and the requests it logs as it goes are one `FetchTokens` per address, in order |
| `Aggregation.Counts` | api/index.tsx:148-159 | each outcome gives one count at its own position: the token count when tokens were found, else 0 |
| `Aggregation.Total` | api/index.tsx:163 | the total of the outcomes is the sum over the successful lookups alone |
| `Aggregation.SumCounts` | api/index.tsx:163 | the left-to-right `reduce` from 0 equals the sum of the counts |
| `Aggregation.CountsSumIsSumOfFound` | api/index.tsx:148-159 | the sum of all pushed counts, zeros included, equals the sum over the successful lookups alone |
| `Aggregation.NoFoundGivesZero` | api/index.tsx:152-159 | if no lookup finds tokens, including when there are no addresses, the total is 0 |
| `Aggregation.SlotIsolation` | api/index.tsx:137-159 | changing one address's outcome changes only that address's count, and changes the total by the difference of the two contributions |
| `Aggregation.AppendedAddressCounted` | api/index.tsx:131-136 | addresses are not de-duplicated: one more address at the end of the list, even one already in it, adds one more request, answered on its own, and adds that answer's contribution to the total |
| `Aggregation.TotalPermutationInvariant` | api/index.tsx:163 | permuting the lookup outcomes, each address keeping its answer, leaves the total unchanged |
| `Aggregation.AddressOrderInvariant` | api/index.tsx:131-163 | when the ownership answer depends on the address alone and not on which request asked, visiting the addresses in another order gives the same outcomes, rearranged, and the same total |
| `Aggregation.OrderMattersPerRequest` | api/index.tsx:136-163 | when the answer depends on the request, the order can change the total: a service that finds one token only for a first request about `a` counts 1 for `[a, b]` and 0 for `[b, a]` |
| `Decimal.ToDecimal` | api/index.tsx:167 | the decimal form of a total is non-empty, has only digits and has no leading zero |
| `Decimal.ParseToDecimal` | api/index.tsx:163 | reading back the decimal form of a count gives the count (`parseInt` inverts `${n}`) |
| `Decimal.DecimalLength` | api/index.tsx:168 | the decimal form has at most k digits if and only if the number is below 10^k |
| `Message.Format` | api/index.tsx:165-176 | both the positive-total and the zero-total branch follow one rule: the decorated reply when it fits the 30-character budget, the plain `N DP #5` otherwise |
| `Message.FormatBounds` | api/index.tsx:166-175 | the reply always ends with ` DP #5` and is never longer than the decorated form; it fits the budget if and only if the total has at most 24 digits, that is, is below 10^24 |
| `Message.FormatCarriesTotal` | api/index.tsx:168-170 | the fallback reply still carries the whole total: the digits before the label read back as the total |
| `Message.ExampleShortName` | api/index.tsx:167 | `alice` with 3 tokens gets `@alice - 3 DP #5` |
| `Message.ExampleLongName` | api/index.tsx:168-169 | a 28-character username with 12 tokens gets the plain `12 DP #5` |
| `Message.ResultSentence` | api/index.tsx:324 | the zero and non-zero branches of the card text agree: `@name, you have (N) $DP#5 tokens in your wallet.` with N in decimal |
| `Message.ResultSentenceCarriesTotal` | api/index.tsx:324 | the text between the parentheses reads back as the total, whatever the username |
| `Services.TokenCalls` | api/index.tsx:136-139 | there is one ownership request per address, for that address, in order |
| `Handlers.CountTokens` | api/index.tsx:131-163 | the total is the sum of the lookups of the lower-cased addresses; every ownership request names a lower-case address |
| `Handlers.CastAction` | api/index.tsx:104-185 | the reply is 401 `Unauthorized` if and only if the verifier rejects, and then no service is called; a failed identity lookup gives 500 with the fixed error text after the one identity call; otherwise the reply is 200 with the formatted total after the identity call and one ownership call per address; every 200 reply ends with ` DP #5` |
| `Handlers.ResultFrame` | api/index.tsx:255-406 | the error card appears if and only if the search fails, and the not-found card if and only if it finds no user; otherwise the first user's addresses are counted and the card greets the name as typed, or an empty name when there was no input |
| `Handlers.QueryText` | api/index.tsx:258-266 | the search query is the typed text, or `undefined` when there was none |
| `Handlers.CardName` | api/index.tsx:324 | the name after the card's `@` is the typed text, or nothing when there was none |
| `Handlers.QueryAndCardName` | api/index.tsx:258-324 | the query and the card's name agree if and only if text was typed; without it the card reads `@, you have (N) $DP#5 tokens in your wallet.` |
| `FrameRewrite.DigitRun` | api/index.tsx:59 | `(\d+)` takes the longest run of digits |
| `FrameRewrite.Match` | api/index.tsx:57-65 | a site consumes at least one character, and every site of a well-formed rule starts with `fc:frame:` |
| `FrameRewrite.RewriteNoMatch` | api/index.tsx:57-65 | a substitution with no site in the text leaves the text unchanged |
| `FrameRewrite.Rewrite` | api/index.tsx:57-65 | a well-formed substitution leaves text without `fc:frame:` unchanged |
| `FrameRewrite.OpenFrameTags` | api/index.tsx:56-65 | text without `fc:frame:` goes through the whole chain unchanged |
| `FrameRewrite.ChainWellFormed` | api/index.tsx:57-65 | every pattern of the chain starts with `fc:frame:` and is made of pattern characters, and no replacement can start a pattern |
| `RewriteLaws.PrefixSurvives` | api/index.tsx:57-65 | output that starts with a string containing no `of` was copied from the input at that point |
| `RewriteLaws.NoOccurrenceAfter` | api/index.tsx:57-65 | when every `fc…` occurrence of a key is a site of the rule, no occurrence is left after the substitution |
| `RewriteLaws.ImageKeyGone` | api/index.tsx:57 | after the first link no `fc:frame:image` is left |
| `RewriteLaws.ButtonSitesGone` | api/index.tsx:59 | after the first button link no `fc:frame:button:` followed by a digit is left |
| `RewriteLaws.DeadSubstitutions` | api/index.tsx:56-65 | the `:action`, `:target` and `aspect_ratio` links never fire; the chain equals the chain without them |
| `RewriteLaws.RewriteSplit` | api/index.tsx:57-65 | a substitution works separately on the two sides of a character that cannot occur in a pattern, such as `"`, `<` or a space |
| `RewriteLaws.ChainSplit` | api/index.tsx:56-65 | the whole chain works separately on the two sides of such a character |
| `RewriteLaws.TagwiseRewrite` | api/index.tsx:43-65 | rewriting the joined tags is the same as joining the tags rewritten one by one |
| `RewriteLaws.ChainOnPropertyTag` | api/index.tsx:56-65 | on `<meta property="K" content="V"/>` the chain rewrites K and V and leaves the tag structure alone |
| `RewriteLaws.ImageKeysMapped` | api/index.tsx:57-64 | `fc:frame:image`, followed by any text without `fc`, becomes `of:image` followed by the same text after the whole chain; this covers `fc:frame:image:aspect_ratio`, so the later aspect-ratio link is never needed |
| `RewriteLaws.ButtonKeysMapped` | api/index.tsx:59-61 | `fc:frame:button:N`, `…:N:action` and `…:N:target` become `of:button:N`, `of:button:N:action` and `of:button:N:target` after the whole chain, for every non-empty digit string N |
| `RewriteLaws.InputKeysMapped` | api/index.tsx:63 | `fc:frame:input:text`, followed by any text without `fc`, becomes `of:input:text` followed by the same text after the whole chain |
| `RewriteLaws.StateKeysMapped` | api/index.tsx:65 | `fc:frame:state`, followed by any text without `fc`, becomes `of:state` followed by the same text after the whole chain |
| `RewriteLaws.UnmappedKeysKept` | api/index.tsx:44-54 | a bare `fc:frame` followed by any text without `fc` that does not start with `:`, and `og:image` followed by any text without `fc`, come out of the chain as they went in, although the mapping comment pairs `fc:frame` with `of:accepts:farcaster` |
| `OpenFrames.Scan` | api/index.tsx:41-42 | the global shortest-match scan cuts the page into gaps and matches that concatenate back to the page, and every match is one `<meta…/>` match |
| `OpenFrames.MetaTags` | api/index.tsx:41-43 | every collected tag opens with `<meta` and ends at the first `/>` after the opening; a page without `<meta` yields no tags |
| `OpenFrames.ScanComplete` | api/index.tsx:41-42 | the scan misses no match: gaps and matches alternate, starting and ending with a gap; the gap before each match holds no `<meta`, so each match opens at the leftmost `<meta` after the previous one; the final gap holds no `<meta` with a `/>` after it, so no match is left in it |
| `OpenFrames.MetaTagsOfPage` | api/index.tsx:41-43 | for any page written as text, tag, text, …, tag, text, where each text before a tag holds no `<meta` and the last text no `<meta` with a `/>` after it, the collected tags are exactly those tags, in order |
| `OpenFrames.MetaTagsOfConcat` | api/index.tsx:41-43 | collecting the tags of a page made of well-formed tags gives back exactly those tags, in order |
| `OpenFrames.AcceptsTagsJoined` | api/index.tsx:67-71 | the appended text is the three `of:accepts:*` property tags joined by newlines |
| `OpenFrames.AcceptsTagsPlain` | api/index.tsx:67-71 | the appended text holds no dollar sign |
| `OpenFrames.Block` | api/index.tsx:56-71 | the inserted block is each collected tag rewritten on its own, followed by the three accepts tags joined by newlines |
| `OpenFrames.BlockOfTags` | api/index.tsx:43-71 | for a page made of well-formed tags, the block is those tags rewritten one by one, then the accepts tags |
| `OpenFrames.HeadIndex` | api/index.tsx:73 | the insertion point is the leftmost `<head>` in any letter case, or there is none |
| `OpenFrames.HeadAt` | api/index.tsx:73 | the `/i` match of `<head>` at a position holds if and only if the six characters there lower-case to `<head>` |
| `OpenFrames.Inject` | api/index.tsx:73 | with a `<head>`, the page up to and including it is kept, the block follows verbatim, then the rest of the page, so removing the block gives back the page; without one, the page is unchanged |
| `OpenFrames.Expand` | api/index.tsx:73 | a replacement template without `$` is copied as it is |
| `OpenFrames.ExpandPlainPrefix` | api/index.tsx:73 | text without `$` at the front of a template is copied, and the rest of the template is expanded on its own |
| `OpenFrames.InjectAsWritten` | api/index.tsx:73 | the insertion as written leaves a page without `<head>` unchanged; otherwise the page up to and including the first `<head>` is kept, the leading `$1` always yields the matched `<head>` even when the tags start with a digit, and the rest is the tags with their `$` patterns expanded, then the rest of the page |
| `OpenFrames.InjectKeepsHead` | api/index.tsx:73 | the first `<head>` of the result is where it was in the page |
| `OpenFrames.AsWrittenAgreesWithoutDollar` | api/index.tsx:73 | when the tags hold no `$`, the insertion as written equals the literal insertion |
| `OpenFrames.DollarPatternsAltered` | api/index.tsx:73 | tags holding `$$` lose a dollar sign, and tags holding `$'` pull in a copy of the rest of the page |
| `OpenFrames.IsFrame` | api/index.tsx:38 | a response counts as a page if and only if it has a content type and searching it for `html` finds a position |
| `OpenFrames.Shim` | api/index.tsx:35-80 | a response that is not a page passes through unchanged; a page becomes status 200 with type `text/html`; a page without `<head>` keeps its body; on a page with one, the body keeps the page up to and including the first `<head>`, then the block (tags rewritten one by one, then the accepts tags) with its `$` patterns expanded as a replacement template, then the rest of the page |
| `OpenFrames.ShimLiteral` | api/index.tsx:35-80 | the same shim with the block inserted verbatim right after the first `<head>` |
| `OpenFrames.ShimAgreesWithoutDollar` | api/index.tsx:73 | when the block holds no `$`, the shim and the literal shim give the same response |
| `OpenFrames.ShimDollarExample` | api/index.tsx:73 | on the page `<head><meta $$/>` the shim inserts `<meta $/>` before the accepts tags, while the literal shim inserts `<meta $$/>` |

## Left out

- Network requests, environment variables, API keys, headers and `console` logging are left out. Each service call is a function parameter, and the handlers report which calls they made.
- `validateFramesMessage` is the `Verdict` parameter. Its signature check is not modelled.
- When the identity lookup fails, `CastAction` reports the error as a `None` user. This covers every way the real lookup can fail: a network error, malformed JSON, an empty `users` array, or a user without `verified_addresses`.
- `ResultFrame` likewise treats a failed search as `None`, and a reply without `result` or `users` as an empty list. A found user without `verified_addresses`, which throws in the code and shows the error card, is not modelled: user records always carry an address list.
- `Aggregation.SumCounts`: counts are natural numbers, and `parseInt` is the identity on their decimal form. A non-numeric count (which gives `NaN`) and JavaScript's loss of precision above 2^53 are not modelled.
- `Message.FormatBounds`: totals are written with all their digits, and the bound is stated for that rendering. JavaScript writes numbers of 10^21 and above in exponent form, at most 23 characters, so the plain reply the code sends never exceeds 29 characters; that rendering is not modelled.
- `Message.Format`: lengths are counted in Unicode scalar values. `String.prototype.length` counts UTF-16 code units, so a name with characters outside the Basic Multilingual Plane may cross the budget at a different length.
- `Text.Lower`: only ASCII letters are lower-cased. Addresses are hexadecimal, and `toLowerCase` on other letters is not modelled.
- The search query is not URL-encoded in the code, and the model passes the typed text as it is.
- The JSX cards, buttons, fonts and colours are reduced to a `Screen` value. Also left out: the static `GET /decentral-perk` descriptor, the `/` and `/search` frames, the Frog app setup, devtools and `lib/ui.ts`.
- `Handlers.CastAction`: the verifier's answer is taken as given. In the code, `c.req.json()` runs outside the `try`, so a body that is not JSON makes the handler throw, which the framework answers with 500 rather than 401. Reading `message?.data.frameActionBody` throws the same way when a message has no `data`. A message without `castId` leaves the fid `undefined`, and the identity request then asks for `fids=undefined`. None of these paths is modelled: `castFid` is always a number.
- `FrameRewrite.Match`: a literal pattern matches only when it is non-empty. `replaceAll` with an empty pattern would insert the replacement at every position, but no link of the chain has an empty pattern.
- `OpenFrames.Shim` keeps only the status, the content type and the body of a response. The code builds a fresh `Response`, which drops every other header; that is not modelled. Decoding the body stream (`c.res.text()`) is not modelled either.

## Findings

| source | as written | input that shows it | evidently intended | confidence | as-written member | corrected member |
|---|---|---|---|---|---|---|
| api/index.tsx:73 | the rewritten tags are placed inside the replacement string of `String.prototype.replace`, so `$$`, `$&`, `$1`, `` $` `` and `$'` inside tag text are expanded as substitution patterns | an HTML page `<head><meta $$/>` comes back with `<meta $/>` inserted after `<head>`. At the level of the insertion alone, tags text `$$` turns `<head>x` into `<head>$x`, and tags text `$'` turns it into `<head>xx` | insert the tags verbatim after the first `<head>` | not executed | `OpenFrames.ShimDollarExample` (about `OpenFrames.Shim`), `OpenFrames.DollarPatternsAltered` (about `OpenFrames.InjectAsWritten`) | `OpenFrames.ShimLiteral`, `OpenFrames.Inject` |
