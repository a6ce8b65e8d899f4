# Search engine result pipeline, in Dafny

This project models the result pipeline of a browser-side metasearch engine, the
`SearchEngine` class of `app.js`. Several sources answer a query: a set of guessed
domains and five web services. Their lists are merged, and each result gets an
integer score and is placed in a stable sort by descending score. The list is then
thinned to a few results per domain, cached under the query and page, and shown ten
to a page with a window of page buttons.

Modules, one file each:

- `Text` (`text.dfy`): the JavaScript string operations the pipeline relies on: the
  `\s` and `\w` character classes, ASCII `toLowerCase`, `trim`, `split(/\s+/)`,
  `split('/')`, `includes`, `endsWith`, UTF-16 length and the decimal form of an
  integer.
- `Results` (`results.dfy`): the result record, the merge that flattens the sources'
  lists, drops null entries and defaults the description, and `extractDomain`.
- `Ranking` (`ranking.dfy`): the composite score of `rankResults` and its stable sort.
- `Limiter` (`limiter.dfy`): what `limitResultsPerDomain` keeps, as functions on
  sequences, with its properties.
- `Candidates` (`candidates.dfy`): the guessed-domain source `fetchDomainMatch`.
  Whether a guessed site answers its probe is a parameter.
- `Cache` (`cache.dfy`): the insertion-ordered response cache. It is a sequence of
  key/response entries, at most 20 of them, with the oldest evicted first.
- `Pagination` (`pagination.dfy`): the page slice, the page count and the
  pagination controls, built by a loop as in the source.
- `Engine` (`engine.dfy`): the `SearchEngine` object with its fields. It holds
  `performSearch` with its cache, the limiter's counting loop, and what
  `displayResults` shows.

The network is not modelled. The guessed-domain source is part of the search: the
outcomes of its probes enter `PerformSearch` as the `answers` predicate, and
`DomainContribution` builds its list from them. The five services' lists enter as the
`services` parameter. The merge reads the six lists in the order of `Promise.all`, the
guesses first. The text of the input box when the sources have answered is the
`laterInput` parameter, because the limiter reads the box again at that point.

## Model

| member | source | states |
|---|---|---|
| Text.Trim | app.js:51-52 | the query is a contiguous part of the input with only white space around it, and it is empty or starts and ends with a non-space character |
| Text.SplitOnSpaces | app.js:265 | `split(/\s+/)`: at least one piece, and no piece holds white space |
| Text.SplitOnSpacesCollapse | app.js:265 | the pieces joined with single spaces are the text with each maximal run of white space collapsed to one space, so the cuts fall exactly at the runs |
| Text.SplitOnSpacesIsSplit | app.js:265 | `split(/\s+/)` equals splitting on `' '` after collapsing each run of white space to one space, which fixes every piece |
| Text.SplitOnSpacesKeepsText | app.js:265 | `split(/\s+/)` loses only white space: the pieces joined end to end are the text with its white space removed |
| Text.SplitOnSpacesCount | app.js:265 | there is one piece more than there are maximal runs of white space in the text |
| Text.LowerTerms | app.js:265 | the terms of the limiter, and at app.js:289 of the ranker's alternation: no term holds white space; joined, they give the lower-cased text without its white space; there is one term more than its runs of white space; and they are exactly the pieces of the lower-cased text, with its runs collapsed to one space, split on `' '` |
| Text.Lower | app.js:289 | ASCII `toLowerCase`: same length, no upper-case letter left, each upper-case letter replaced by its lower-case partner and every other character kept |
| Text.SplitLeadingSpace | app.js:265 | text that starts with white space splits into a first piece that is empty |
| Text.SplitTrimmedHasNoEmptyPiece | app.js:289 | the terms of a trimmed, non-empty query are all non-empty |
| Text.JoinSplit | app.js:282 | `split('/')` loses nothing: joining the pieces gives back the URL |
| Text.SplitLength | app.js:282 | a URL splits into one piece more than it has `/` characters |
| Text.SplitPiecesLackSeparator | app.js:282 | no piece of a split holds the separator |
| Text.Split | app.js:282 | `split('/')` gives at least one piece; JoinSplit, SplitLength and SplitPiecesLackSeparator fix the pieces |
| Text.Utf16Length | app.js:317-318 | `.length` counts UTF-16 units: at least one per character and at most two |
| Text.IntToString | app.js:75 | `${page}`: a non-negative number has no minus sign; a negative one is a minus sign followed by digits with no further minus sign |
| Text.NatToStringInjective | app.js:75 | different page numbers have different decimal forms |
| Results.PresentIn | app.js:127-128 | the non-null entries of one source's list, at most as many as its entries; a result is among them iff it was a non-null entry |
| Results.PresentInOne | app.js:127-128 | a single entry is kept iff it is not null |
| Results.PresentInAppend | app.js:127-128 | within one source's list the kept entries stay in order: the kept entries of two stretches are those of the first followed by those of the second |
| Results.Present | app.js:127-128 | a result survives the flatten-and-filter iff it was a non-null entry of some source |
| Results.PresentAppend | app.js:127-128 | merging keeps source order: the merge of two runs of sources is the first run's merge followed by the second's |
| Results.PresentCount | app.js:127-128 | the merge keeps exactly one result per non-null entry of the sources |
| Results.WithDescription | app.js:129-132 | the defaulted description is never empty; nothing else in the result changes; a non-empty description is kept as it is |
| Results.Flatten | app.js:126-133 | every non-null entry, in source order, one output per entry; each description is either the original non-empty one or exactly `This website has no description.`; no other field changes |
| Results.NothingFromNoSource | app.js:126-133 | when every source contributed nothing, the merge is empty |
| Results.StripWww | app.js:282 | one leading `www.` is removed and nothing else changes |
| Results.ExtractDomain | app.js:280-286 | a URL with fewer than two `/` is returned whole, as when reading the missing third piece throws; otherwise the domain holds no `/` |
| Results.ExtractDomainOfUrl | app.js:280-286 | for any `a/b/host` followed by nothing or by a path, where `a`, `b` and `host` hold no `/`, the domain is the host without a leading `www.` |
| Ranking.MatchesExactly | app.js:292 | `^query$` with the `i` flag: a text that matches it also matches the prefix test and is as long as the query |
| Ranking.StartsWithQuery | app.js:293 | `^query` with the `i` flag: a text that matches it is at least as long as the query |
| Ranking.ContainsAsWord | app.js:294 | `\bquery\b` with the `i` flag: a text that matches it contains the query, case-insensitively |
| Ranking.FirstTermAt | app.js:309 | an alternative found at position `i` lies inside the text |
| Ranking.FirstTermAtIsFirst | app.js:309 | the alternation matches at `i` iff some term occurs there; it picks the first term, in term order, that occurs there |
| Ranking.MatchCount | app.js:309-310 | the global match from position `i` finds at most one match per position left, plus one |
| Ranking.TermMatches | app.js:309-310 | the number of matches of the query's terms in `title + ' ' + description`: positive iff some term occurs there, and at most one per position of that text, plus one |
| Ranking.MatchCountPositive | app.js:309-310 | some match is counted iff some term occurs somewhere in the scanned text |
| Ranking.MatchCountBound | app.js:309-310 | matches do not overlap: with every term at least `m` long, the matches cover at most the scanned text |
| Ranking.DomainBonus | app.js:303-315 | the domain bonuses total at most 2000 + 1000 + 1500 + 200, and are zero iff the domain neither starts with the query nor contains the lower-cased query |
| Ranking.TitleBonus | app.js:304-307 | the title bonuses total at most 1500 + 800 + 600, and are zero iff the title neither starts with the query nor holds it as a whole word |
| Ranking.Penalty | app.js:317-318 | the length penalties total at most 150; they are zero iff the lower-cased title has at most 100 UTF-16 units and the description at most 300 |
| Ranking.BaseScore | app.js:298 | `relevance`, or 0: the result's own relevance when it has one, and 0 when it has none |
| Ranking.Score | app.js:298-320 | no bonus is negative: a score is at least the relevance (0 when absent) minus 150 |
| Ranking.ExactDomainScore | app.js:298-318 | a result whose lower-case domain equals the lower-cased query earns the exact, prefix and containment domain bonuses (2000 + 1000 + 1500), plus 200 for `.com` |
| Ranking.ExactDomainOutranks | app.js:299-315 | of two results that differ only in URL, one whose domain is the query outscores one whose domain does not contain the query by at least 4500 |
| Ranking.SortByScore | app.js:322 | the sort output is a permutation of its input, sorted by non-increasing score, and keeps equal scores in input order |
| Ranking.StableSortIsUnique | app.js:322 | a sorted sequence with the same runs of equal scores as another sorted sequence is equal to it, so any stable descending sort gives the same output as `SortByScore` |
| Ranking.ScoreAll | app.js:297-321 | each result is paired with its own score, in input order |
| Ranking.Rank | app.js:288-322 | `rankResults` returns as many results as it was given |
| Ranking.RankIsStableSort | app.js:288-322 | `rankResults` returns a permutation of the scored input, sorted by non-increasing score, stable; each entry is an input result unchanged, with its score added |
| Limiter.DomainMatches | app.js:266-269 | an empty term matches every domain |
| Limiter.Limit | app.js:257-277 | the filter never adds a result |
| Limiter.DomainOf | app.js:262 | the limiter counts under the extracted domain: the whole URL when it has fewer than two `/`, and otherwise a key without `/` |
| Limiter.Cap | app.js:265-270 | the cap is 50 iff a term occurs in the lower-cased domain or the lower-cased domain occurs in a term, and 1 otherwise |
| Limiter.LimitCount | app.js:261-277 | the output holds min(count in input, cap) results of each domain: at most 1 of a non-matching domain, at most 50 of a matching one, and at least one of every domain in the input |
| Limiter.LimitStep | app.js:261-277 | a result is kept iff fewer results of its domain than its cap have been kept before it, which is the running count the loop keeps |
| Limiter.LimitIsSubsequence | app.js:261 | the output is a subsequence of the input, in the input's order |
| Limiter.LimitKeepsDomains | app.js:262-276 | the output has exactly the input's set of domains |
| Limiter.LimitWithinCaps | app.js:272 | a list within every domain's cap passes unchanged |
| Limiter.LimitIdempotent | app.js:257-277 | limiting twice with the same terms is limiting once |
| Limiter.SpaceAtEdgeRelaxesEveryCap | app.js:265-270 | white space at either end of the input box yields an empty term, so every domain gets the cap of 50 |
| Candidates.KeepLowerAlnum | app.js:143 | only `[a-z0-9]` characters remain, each as often as in the input, and no other character |
| Candidates.KeepLowerAlnumAppend | app.js:143 | the filter works piece by piece and keeps the order |
| Candidates.CleanQuery | app.js:142-144 | the cleaned query holds only `[a-z0-9]` and no white space, and is no longer than the query |
| Candidates.CleanQueryIdempotent | app.js:142-144 | cleaning a cleaned query changes nothing |
| Candidates.CleanQueryOfClean | app.js:142-144 | a query of `[a-z0-9]` characters is its own cleaned form |
| Candidates.Candidate | app.js:149-164 | a candidate's title and domain are `clean.tld`, its URL is `https://` followed by the domain, its description is the unpunctuated placeholder and its relevance is 100 |
| Candidates.GuessedDomain | app.js:149 | the guessed site is the cleaned query, a `.`, and the TLD |
| Candidates.Answered | app.js:148-168 | the probe of one TLD yields its candidate iff the site answered, and nothing otherwise |
| Candidates.CandidatesFor | app.js:148-170 | no more candidates than TLDs, and a candidate is present iff its TLD is listed and its site answered |
| Candidates.CandidatesForOne | app.js:148-170 | one TLD gives exactly its own probe's outcome |
| Candidates.CandidatesForAppend | app.js:148-170 | the answered probes are kept in TLD order: the candidates of two runs of TLDs are those of the first followed by those of the second |
| Candidates.DomainCandidates | app.js:141-171 | at most seven candidates; `clean.tld` is among them iff `tld` is one of com, net, org, io, app, dev, games and its site answered |
| Candidates.DomainCandidatesInOrder | app.js:146-170 | the guesses are, in this order, the answered ones among com, net, org, io, app, dev and games, one per answered TLD |
| Candidates.AsContribution | app.js:170 | entry `k` of the contribution is the `k`-th result, so none is null |
| Candidates.PresentInAsContribution | app.js:127-128 | the merge gets the guessed source's candidates back unchanged and in order |
| Candidates.DomainContribution | app.js:141-170 | the source's contribution holds its candidates, entry for entry and in order, and no null entry |
| Candidates.CandidateDomain | app.js:280-286 | the domain read from a candidate's URL is the guessed site, except for the query `www`, whose `www.` is stripped and leaves the bare TLD |
| Candidates.CandidateScore | app.js:298-318 | a candidate for a `[a-z0-9]` query other than `www`, of at most 94 characters, scores at least 3400, and at least 3600 for `.com` |
| Engine.Fetched | app.js:116-138 | the guesses and the five services' lists are merged in that order and ranked; the ranked list holds one result per non-null entry of the six lists |
| Engine.AnsweredGuessIsRanked | app.js:116-137 | a guessed site that answered its probe is among the ranked results, with its score, whatever the services return |
| Cache.CacheKey | app.js:75 | the key is the query, a dash and the page; for a page of at least 0 no dash follows the first one after the query |
| Cache.Inserted | app.js:85-90 | storing into a cache of at most 20 entries leaves between 1 and 20 entries |
| Cache.Lookup | app.js:76-77 | a lookup misses iff no entry has the key; a hit returns the response stored under the key |
| Cache.Set | app.js:85 | setting adds one entry for a new key and none for an existing key; the key is then present |
| Cache.SetLookup | app.js:85 | after setting, the key maps to the new response and every other key keeps its response |
| Cache.SetKeys | app.js:85 | the keys after setting are the old keys plus the new one; a new key goes last, and an existing key keeps its place |
| Cache.InsertedValid | app.js:85-90 | after storing, the cache holds at most 20 entries and no key twice |
| Cache.InsertedFinds | app.js:85-90 | a response just stored is found under its key |
| Cache.InsertedEvictsOldest | app.js:87-89 | storing a new key in a full cache removes exactly the earliest-inserted entry and puts the new one last |
| Cache.InsertedForgetsOldest | app.js:87-89 | after that eviction, the earliest key misses |
| Cache.InsertedKeepsOthers | app.js:85-90 | storing changes no other key's response, except the evicted one's |
| Cache.CacheKeyInjective | app.js:75 | searches with non-negative pages and different query or page have different keys |
| Cache.NegativePageKeysCollide | app.js:75 | with a negative page two different searches share a key |
| Engine.SearchEngine.constructor | app.js:2-17 | a new engine is on page 1 with no results, no seen domains and an empty cache |
| Engine.SearchEngine.LimitResultsPerDomain | app.js:257-277 | the counting loop keeps exactly what `Limit` keeps, with the terms read from the input box, and records every domain of the input as seen |
| Engine.SearchEngine.KeepUnderCaps | app.js:261-277 | the `filter` loop for given terms keeps exactly what `Limit` keeps and records every domain of the input as seen |
| Engine.CountOf | app.js:263 | `domainCounts.get(domain)`, or 0 when missing: the stored count of a counted domain, and 0 for a domain not counted yet |
| Engine.SearchEngine.StoreResponse | app.js:85-90 | the cache becomes `Inserted(old cache, key, response)`: it stays within 20 distinct keys and the response is found under its key |
| Engine.SearchEngine.LimitStoreAndShow | app.js:83-94 | a fetched response is limited, stored under its key and made the current results |
| Engine.Respond | app.js:75-94 | a search fetches iff its key `query-page` is missing from the cache; a hit shows the stored response and leaves the cache as it was; a miss shows the guesses and services merged, ranked and limited by the later input, and stores it under its key, evicting the oldest entry of a full cache |
| Engine.RespondValid | app.js:75-94 | after a search the cache holds at most 20 entries with distinct keys, and the shown response is found under the search's key |
| Engine.SearchEngine.PerformSearch | app.js:50-101 | an empty trimmed query changes nothing; otherwise the page is set, and the fetch decision, the shown results and the new cache are those of `Respond` on the old cache, the probe outcomes and the services' lists; the seen domains are those of the fetched response on a miss and are unchanged on a hit |
| Engine.SearchEngine.Answer | app.js:75-94 | the cache branch of a search: the fetch decision, the shown results and the new cache are those of `Respond`, the engine stays valid, and the seen domains change only on a miss |
| Engine.SearchEngine.Show | app.js:77-93 | the current results and their count become the given list |
| Engine.SearchEngine.DisplayResults | app.js:339-350 | an empty list shows the no-results message; otherwise the shown slice is the current page's, at most 10 results, all from the list, with the pagination controls |
| Pagination.PageSlice | app.js:347-350 | any page shows at most 10 (`perPage`) results, all of them from the list |
| Pagination.SliceIndex | app.js:349-350 | `slice` reads a negative index from the end and clamps every index to the list |
| Pagination.Slice | app.js:349-350 | a slice of a range inside the list is that range; it is never longer than its range and is empty past the end |
| Pagination.SliceWithin | app.js:349-350 | a slice holds only elements of the list and no more than its range, negative indices included |
| Pagination.PageSliceWithin | app.js:347-350 | a page that starts within the list shows the results from `(page - 1) * n`, up to `n` of them |
| Pagination.TotalPages | app.js:381 | `ceil(total / n)`: enough pages for every result, the last one not empty, and zero pages iff no result |
| Pagination.PageOfIndex | app.js:347-350 | every result is shown on exactly the page `i / n + 1`, at position `i % n`, and that page is between 1 and the page count |
| Pagination.PageSliceNonEmpty | app.js:347-350 | a page from 1 up shows some result iff it is at most the page count |
| Pagination.PaginationControls | app.js:380-403 | prev is disabled iff the page is 1, and next iff the page is the page count; the buttons count up from `max(1, p - 2)`, at most five of them, their numbers are exactly the integers of `[max(1, p - 2), min(pages, p + 2)]`, and the current page's is the active one |

## Left out

- The five web services, `fetchFromWikipedia` to `fetchFromLibrary`, are HTTP I/O. Their answers are the `services` parameter. `encodeURIComponent`, `new URL(...).hostname` and `stripHtml` are used only by them and are not part of this model.
- The HEAD probe of `fetchDomainMatch` is I/O. Its outcome is the `answers` predicate.
- `Promise.all` and the 1500 ms `Promise.race` timeouts are concurrency and timers. A service that failed or lost its race contributes an empty list, which is one of the values `services` can hold.
- The guessed-domain source is not raced against a timer (app.js:117), and its `timeout: 1000` option (app.js:155) is not an option `fetch` reads. A probe that never settles therefore holds up the whole search. The model has no waiting: only the outcome of each probe, as `answers`.
- Cancellation is left out. A new search aborts only the previous search's HEAD probes (app.js:154); the five service fetches are never aborted. An aborted probe returns null (app.js:165-166), so the superseded search goes on without those guesses. It caches the smaller list under its own key (app.js:85), later hits on that key serve it, and it can show it over the newer search's results. In the model such a search is one whose `answers` leaves those sites out; the link between an abort and the missing answers is not modelled.
- The `catch` branch that shows the error message (app.js:95-97) is left out. In the source it is reached when the query or one of its terms is not a valid regular expression (see Ranking.Score below); no modelled step throws.
- `isLoading`, the loading spinner, theme handling, event listeners, the `69` easter egg, favicons, source icons and HTML rendering are DOM work. So is the description truncation to 200 characters at display time.
- Engine.SearchEngine.DisplayResults returns what is shown rather than writing HTML.
- Ranking.Score reads the three query tests literally: equality, prefix, and occurrence between word boundaries, case-insensitively. The source builds them (app.js:292-294) as regular expressions from the raw, unescaped query. A query holding metacharacters behaves differently there: a `.` matches any character, and a query that is not a valid pattern, such as `c++`, throws, so the search ends in the error message instead of results.
- Ranking.MatchCount counts literal occurrences of the terms. The source joins the raw terms into the alternation `term|term|...` (app.js:290, used at 309), unescaped. A term such as `github.com` there also matches `githubXcom`, and a term such as `c++` makes the constructor throw into the error branch.
- Text.Lower folds ASCII letters only. JavaScript's `toLowerCase` also folds other Unicode letters.
- Engine.SearchEngine.PerformSearch takes the probe outcomes (`answers`), the five services' lists (`services`) and the later text of the input box as parameters, instead of awaiting them. Whatever the user types in between is therefore an input.
- Cache.CacheKeyInjective needs non-negative pages. Pages below 1 are never requested, since the previous-page button is disabled on page 1, so the collision of Cache.NegativePageKeysCollide does not arise.
