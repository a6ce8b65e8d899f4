/** The `SearchEngine` object (app.js:1-17): the state a search updates, the search
    itself with its response cache (app.js:50-100), the per-domain limiter (app.js:257-277)
    and what the results view shows (app.js:339-403). The network is replaced by the
    sources' answers, passed in. */
module Engine {
  import opened Text
  import opened Results
  import opened Ranking
  import opened Limiter
  import opened Candidates
  import opened Cache
  import opened Pagination

  const ResultsPerPage: nat := 10

  /** What the results container shows after a search. */
  datatype View =
    | NoResults
    | ResultsPage(shown: seq<Ranked>, prevDisabled: bool, buttons: seq<PageButton>, nextDisabled: bool)

  /** `domainCounts.get(domain) || 0` */
  function CountOf(counts: map<string, nat>, d: string): (c: nat)
    ensures d in counts ==> c == counts[d]
    ensures d !in counts ==> c == 0
  {
    if d in counts then counts[d] else 0
  }

  /** The state of the limiter's loop after scanning the first `i` results: the kept
      results are what `Limit` keeps of them, `counts` counts the kept results per domain,
      and `seen` holds their domains. */
  ghost predicate Scanned(results: seq<Ranked>, i: nat, terms: seq<string>, kept: seq<Ranked>,
                          counts: map<string, nat>, seen: set<string>) {
    i <= |results|
    && kept == Limit(results[..i], terms)
    && (forall d :: CountOf(counts, d) == Occ(kept, d))
    && seen == Domains(kept)
  }

  /** A step of the limiter's loop that keeps result `i`: its domain's count is under the
      cap. */
  lemma LimiterKeeps(results: seq<Ranked>, i: nat, terms: seq<string>, kept: seq<Ranked>,
                     counts: map<string, nat>, seen: set<string>)
    requires Scanned(results, i, terms, kept, counts, seen) && i < |results|
    requires CountOf(counts, DomainOf(results[i])) < Cap(DomainOf(results[i]), terms)
    ensures var d := DomainOf(results[i]);
      Scanned(results, i + 1, terms, kept + [results[i]], counts[d := CountOf(counts, d) + 1], seen + {d})
  {
    var x := results[i];
    var d := DomainOf(x);
    assert results[..i + 1] == results[..i] + [x];
    LimitStep(results[..i], x, terms);
    CountAfterKeep(counts, kept, x);
    DomainsAppend(kept, x);
  }

  /** A step of the limiter's loop that drops result `i`: its domain has reached the cap. */
  lemma LimiterDrops(results: seq<Ranked>, i: nat, terms: seq<string>, kept: seq<Ranked>,
                     counts: map<string, nat>, seen: set<string>)
    requires Scanned(results, i, terms, kept, counts, seen) && i < |results|
    requires CountOf(counts, DomainOf(results[i])) >= Cap(DomainOf(results[i]), terms)
    ensures Scanned(results, i + 1, terms, kept, counts, seen)
  {
    assert results[..i + 1] == results[..i] + [results[i]];
    LimitStep(results[..i], results[i], terms);
  }

  /** Counting a kept result under its domain keeps the counts those of the kept results. */
  lemma CountAfterKeep(counts: map<string, nat>, kept: seq<Ranked>, x: Ranked)
    requires forall d :: CountOf(counts, d) == Occ(kept, d)
    ensures forall e :: CountOf(counts[DomainOf(x) := CountOf(counts, DomainOf(x)) + 1], e) == Occ(kept + [x], e)
  {
    forall e ensures CountOf(counts[DomainOf(x) := CountOf(counts, DomainOf(x)) + 1], e) == Occ(kept + [x], e) {
      OccAppend(kept, x, e);
    }
  }

  /** Before the limiter's loop nothing is scanned, kept, counted or seen. */
  lemma LimiterStarts(results: seq<Ranked>, terms: seq<string>)
    ensures Scanned(results, 0, terms, [], map[], {})
  {
    assert results[..0] == [];
  }

  /** After the whole list, the loop has kept what `Limit` keeps and seen every domain. */
  lemma LimiterDone(results: seq<Ranked>, terms: seq<string>, kept: seq<Ranked>,
                    counts: map<string, nat>, seen: set<string>)
    requires Scanned(results, |results|, terms, kept, counts, seen)
    ensures kept == Limit(results, terms) && seen == Domains(results)
  {
    assert results[..|results|] == results;
    LimitKeepsDomains(results, terms);
  }

  /** The results a search for `query` produces before limiting: the contributions of the
      six sources, merged, defaulted and ranked. The sources are, in order, the domain
      guesses (`DomainContribution`, with the probes' outcomes `answers`), then Wikipedia,
      GitHub, Stack Exchange, Hacker News and Open Library, whose lists are `services`; one
      that failed or timed out contributes nothing. Every non-null entry yields one result. */
  function Fetched(query: string, answers: string -> bool, services: seq<Contribution>): (r: seq<Ranked>)
    ensures |r| == NonNullCount([DomainContribution(query, answers)] + services)
  {
    PresentCount([DomainContribution(query, answers)] + services);
    Rank(query, Flatten([DomainContribution(query, answers)] + services))
  }

  /** A guessed site that answered the probe is among the ranked results, with its score. */
  lemma AnsweredGuessIsRanked(query: string, answers: string -> bool, services: seq<Contribution>, tld: string)
    requires tld in Tlds && answers(GuessedDomain(CleanQuery(query), tld))
    ensures var c := Candidate(CleanQuery(query), tld);
      Ranked(c, Score(query, c)) in Fetched(query, answers, services)
  {
    var c := Candidate(CleanQuery(query), tld);
    var contributions := [DomainContribution(query, answers)] + services;
    assert c in DomainCandidates(query, answers);
    assert Some(c) in contributions[0];
    var present := Present(contributions);
    assert c in present;
    var k :| 0 <= k < |present| && present[k] == c;
    var flat := Flatten(contributions);
    assert flat[k] == c;
    var scored := ScoreAll(query, flat);
    assert scored[k] == Ranked(c, Score(query, c));
    RankIsStableSort(query, flat);
    assert Ranked(c, Score(query, c)) in multiset(scored);
  }

  /** What a non-empty search does: whether it fetched, the results it shows and the
      cache it leaves. */
  datatype Response = Response(fetched: bool, results: seq<Ranked>, cache: seq<Entry>)

  /** The cache step of `performSearch` for a non-empty query. It fetches exactly when the
      key `query-page` is missing. A hit shows the stored response and leaves the cache as
      it was; a miss shows the fetched response, limited with the terms in the input box
      when the sources have answered (`laterInput`), and stores it under the key. */
  function Respond(cache: seq<Entry>, query: string, page: int, answers: string -> bool,
                   services: seq<Contribution>, laterInput: string): (r: Response)
    ensures r.fetched <==> !HasKey(cache, CacheKey(query, page))
    ensures !r.fetched ==> r.cache == cache && Lookup(cache, CacheKey(query, page)) == Some(r.results)
    ensures r.fetched ==>
      && r.results == Limit(Fetched(query, answers, services), LowerTerms(laterInput))
      && r.cache == Inserted(cache, CacheKey(query, page), r.results)
  {
    var key := CacheKey(query, page);
    match Lookup(cache, key)
    case Some(stored) => Response(false, stored, cache)
    case None =>
      var results := Limit(Fetched(query, answers, services), LowerTerms(laterInput));
      Response(true, results, Inserted(cache, key, results))
  }

  /** After a search the cache holds at most 20 entries with distinct keys, and the shown
      response is found under the search's key. */
  lemma RespondValid(cache: seq<Entry>, query: string, page: int, answers: string -> bool,
                     services: seq<Contribution>, laterInput: string)
    requires Cache.Valid(cache)
    ensures var r := Respond(cache, query, page, answers, services, laterInput);
      Cache.Valid(r.cache) && Lookup(r.cache, CacheKey(query, page)) == Some(r.results)
  {
    var key := CacheKey(query, page);
    if !HasKey(cache, key) {
      var results := Limit(Fetched(query, answers, services), LowerTerms(laterInput));
      InsertedValid(cache, key, results);
      InsertedFinds(cache, key, results);
    }
  }

  class SearchEngine {
    var currentPage: int
    var totalResults: nat
    var currentResults: seq<Ranked>
    var seenDomains: set<string>
    var cache: seq<Entry>

    ghost predicate Valid()
      reads this
    {
      Cache.Valid(cache) && totalResults == |currentResults|
    }

    constructor()
      ensures Valid()
      ensures currentPage == 1 && totalResults == 0 && currentResults == []
      ensures seenDomains == {} && cache == []
    {
      currentPage := 1;
      totalResults := 0;
      currentResults := [];
      seenDomains := {};
      cache := [];
    }

    /** `limitResultsPerDomain(results)`: keeps what `Limit` keeps, the terms being read from
        the input box as it is when the limiter runs, and records the kept domains, which
        are all the domains of the input. */
    method LimitResultsPerDomain(results: seq<Ranked>, input: string) returns (kept: seq<Ranked>)
      modifies this`seenDomains
      ensures kept == Limit(results, LowerTerms(input))
      ensures seenDomains == Domains(results)
    {
      kept := KeepUnderCaps(results, LowerTerms(input));
    }

    /** The `filter` loop of the limiter for the given terms: a result is kept while its
        domain's running count is under the domain's cap. */
    method KeepUnderCaps(results: seq<Ranked>, terms: seq<string>) returns (kept: seq<Ranked>)
      modifies this`seenDomains
      ensures kept == Limit(results, terms)
      ensures seenDomains == Domains(results)
    {
      var counts: map<string, nat> := map[];
      seenDomains := {};
      kept := [];
      var i := 0;
      LimiterStarts(results, terms);
      while i < |results|
        invariant Scanned(results, i, terms, kept, counts, seenDomains)
      {
        var x := results[i];
        var d := DomainOf(x);
        var count := CountOf(counts, d);
        var maxResults := Cap(d, terms);
        if count < maxResults {
          LimiterKeeps(results, i, terms, kept, counts, seenDomains);
          counts := counts[d := count + 1];
          seenDomains := seenDomains + {d};
          kept := kept + [x];
        } else {
          LimiterDrops(results, i, terms, kept, counts, seenDomains);
        }
        i := i + 1;
      }
      LimiterDone(results, terms, kept, counts, seenDomains);
    }

    /** `cache.set(key, results)`, then the oldest entry is deleted when the cache holds more
        than 20: the response is then found under its key and the cache stays valid. */
    method StoreResponse(key: string, results: seq<Ranked>)
      requires Cache.Valid(cache)
      modifies this`cache
      ensures cache == Inserted(old(cache), key, results)
      ensures Cache.Valid(cache) && Lookup(cache, key) == Some(results)
    {
      InsertedValid(cache, key, results);
      InsertedFinds(cache, key, results);
      cache := Cache.Set(cache, key, results);
      if |cache| > MaxEntries {
        cache := cache[1..];
      }
    }

    /** `performSearch(page)`. The query is the trimmed input; an empty one does nothing.
        Otherwise the page is set and the cache step `Respond` decides what is shown: on a
        miss the domain guesses (probe outcomes `answers`) and the five services' lists
        (`services`) are fetched (see `Fetched`), and limited with the terms in the input box
        once the sources have answered, `laterInput`. */
    method PerformSearch(input: string, page: int, answers: string -> bool, services: seq<Contribution>,
                         laterInput: string) returns (fetched: bool)
      requires Valid()
      modifies this
      ensures Valid()
      ensures Trim(input) == "" ==> !fetched && unchanged(this)
      ensures Trim(input) != "" ==>
        && currentPage == page
        && Response(fetched, currentResults, cache) == Respond(old(cache), Trim(input), page, answers, services, laterInput)
        && seenDomains == (if fetched then Domains(Fetched(Trim(input), answers, services)) else old(seenDomains))
    {
      var query := Trim(input);
      if query == "" {
        return false;
      }
      currentPage := page;
      fetched := Answer(query, page, answers, services, laterInput);
    }

    /** The cache step of a non-empty search, as `Respond` describes it: a hit shows the
        stored response; a miss fetches, limits, stores and shows. */
    method Answer(query: string, page: int, answers: string -> bool, services: seq<Contribution>,
                  laterInput: string) returns (fetched: bool)
      requires Cache.Valid(cache)
      modifies this`seenDomains, this`cache, this`currentResults, this`totalResults
      ensures Valid()
      ensures Response(fetched, currentResults, cache) == Respond(old(cache), query, page, answers, services, laterInput)
      ensures seenDomains == (if fetched then Domains(Fetched(query, answers, services)) else old(seenDomains))
    {
      var key := CacheKey(query, page);
      var cached := Lookup(cache, key);
      ghost var expected := Respond(cache, query, page, answers, services, laterInput);
      if cached.Some? {
        assert expected == Response(false, cached.value, cache);
        Show(cached.value);
        fetched := false;
      } else {
        var ranked := Fetched(query, answers, services);
        assert expected.results == Limit(ranked, LowerTerms(laterInput));
        LimitStoreAndShow(key, ranked, laterInput);
        fetched := true;
      }
    }

    /** The current results become `results`. */
    method Show(results: seq<Ranked>)
      modifies this`currentResults, this`totalResults
      ensures currentResults == results && totalResults == |results|
    {
      currentResults := results;
      totalResults := |results|;
    }

    /** The cache-miss path of `performSearch`: the ranked results are limited, stored and
        shown. */
    method LimitStoreAndShow(key: string, ranked: seq<Ranked>, laterInput: string)
      requires Cache.Valid(cache)
      modifies this`seenDomains, this`cache, this`currentResults, this`totalResults
      ensures Valid()
      ensures currentResults == Limit(ranked, LowerTerms(laterInput))
      ensures cache == Inserted(old(cache), key, currentResults)
      ensures Lookup(cache, key) == Some(currentResults)
      ensures seenDomains == Domains(ranked)
    {
      var results := LimitResultsPerDomain(ranked, laterInput);
      StoreResponse(key, results);
      Show(results);
    }

    /** `displayResults()`: the no-results message for an empty list; otherwise the current
        page's slice, at most ten results of the list, with the pagination controls. */
    method DisplayResults() returns (view: View)
      requires Valid()
      ensures view.NoResults? <==> currentResults == []
      ensures view.ResultsPage? ==>
        view.shown == PageSlice(currentResults, currentPage, ResultsPerPage)
        && |view.shown| <= ResultsPerPage
        && (forall x :: x in view.shown ==> x in currentResults)
        && (view.prevDisabled <==> currentPage == 1)
        && (view.nextDisabled <==> currentPage == TotalPages(|currentResults|, ResultsPerPage))
        && (forall n :: n in Numbers(view.buttons) <==>
              1 <= n <= TotalPages(|currentResults|, ResultsPerPage) && currentPage - 2 <= n <= currentPage + 2)
    {
      if |currentResults| == 0 {
        return NoResults;
      }
      var startIndex := (currentPage - 1) * ResultsPerPage;
      var endIndex := startIndex + ResultsPerPage;
      var pageResults := Slice(currentResults, startIndex, endIndex);
      SliceWithin(currentResults, startIndex, endIndex);
      var prevDisabled, buttons, nextDisabled := PaginationControls(currentPage, totalResults, ResultsPerPage);
      view := ResultsPage(pageResults, prevDisabled, buttons, nextDisabled);
    }
  }
}
