/** The domain limiter `limitResultsPerDomain` (app.js:257-277), stated as functions on
    sequences. The engine's loop (module Engine) is proved to compute `Limit`. */
module Limiter {
  import opened Text
  import opened Results

  const MatchingDomainCap: nat := 50
  const OtherDomainCap: nat := 1

  /** `isDomainMatch`: the lower-cased domain contains a term, or a term contains it. An
      empty term is contained in every domain. */
  predicate DomainMatches(domain: string, terms: seq<string>)
    ensures "" in terms ==> DomainMatches(domain, terms)
  {
    ContainsEmpty(Lower(domain));
    exists t | t in terms :: Contains(Lower(domain), t) || Contains(t, Lower(domain))
  }

  /** `maxResults`: how many results of `domain` the limiter keeps. */
  function Cap(domain: string, terms: seq<string>): (cap: nat)
    ensures cap >= 1
    ensures cap == MatchingDomainCap <==> DomainMatches(domain, terms)
    ensures cap == OtherDomainCap <==> !DomainMatches(domain, terms)
  {
    if DomainMatches(domain, terms) then MatchingDomainCap else OtherDomainCap
  }

  /** The key results are counted under: the domain extracted from the URL (not the
      result's own `domain` field, and not lower-cased). */
  function DomainOf(x: Ranked): (d: string)
    ensures Occurrences(x.result.url, '/') < 2 ==> d == x.result.url
    ensures Occurrences(x.result.url, '/') >= 2 ==> '/' !in d
  {
    ExtractDomain(x.result.url)
  }

  /** The number of results in `s` counted under domain `d`. */
  function Occ(s: seq<Ranked>, d: string): nat {
    if s == [] then 0 else Occ(s[..|s| - 1], d) + (if DomainOf(s[|s| - 1]) == d then 1 else 0)
  }

  /** The domains of the results in `s`. */
  function Domains(s: seq<Ranked>): set<string> {
    set x | x in s :: DomainOf(x)
  }

  /** A result is kept exactly when fewer than its domain's cap of results with the same
      domain come before it in the input. */
  function Limit(s: seq<Ranked>, terms: seq<string>): (kept: seq<Ranked>)
    ensures |kept| <= |s|
  {
    if s == [] then []
    else
      var prefix, x := s[..|s| - 1], s[|s| - 1];
      Limit(prefix, terms) + (if Occ(prefix, DomainOf(x)) < Cap(DomainOf(x), terms) then [x] else [])
  }

  /** `a` is `b` with some elements left out, the rest in their order. */
  predicate IsSubsequence(a: seq<Ranked>, b: seq<Ranked>)
    decreases |b|
  {
    if a == [] then true
    else if b == [] then false
    else (a[|a| - 1] == b[|b| - 1] && IsSubsequence(a[..|a| - 1], b[..|b| - 1]))
         || IsSubsequence(a, b[..|b| - 1])
  }

  // ---------------------------------------------------------------------------
  // Counting

  lemma OccAppend(s: seq<Ranked>, x: Ranked, d: string)
    ensures Occ(s + [x], d) == Occ(s, d) + (if DomainOf(x) == d then 1 else 0)
  {
    assert (s + [x])[..|s|] == s;
  }

  /** A domain is counted in `s` exactly when some result of `s` has it. */
  lemma {:induction false} OccPositive(s: seq<Ranked>, d: string)
    ensures Occ(s, d) > 0 <==> d in Domains(s)
  {
    if s != [] {
      var prefix := s[..|s| - 1];
      OccPositive(prefix, d);
      assert s == prefix + [s[|s| - 1]];
      assert Domains(s) == Domains(prefix) + {DomainOf(s[|s| - 1])};
    }
  }

  // ---------------------------------------------------------------------------
  // What the limiter keeps

  /** Of each domain the limiter keeps the first results up to the domain's cap: at most one
      result of a domain that matches no term, at most 50 of a matching one, and at least
      one of every domain present in the input. */
  lemma {:induction false} LimitCount(s: seq<Ranked>, terms: seq<string>, d: string)
    ensures Occ(Limit(s, terms), d) == if Occ(s, d) <= Cap(d, terms) then Occ(s, d) else Cap(d, terms)
    ensures Occ(Limit(s, terms), d) <= (if DomainMatches(d, terms) then MatchingDomainCap else OtherDomainCap)
    ensures Occ(s, d) > 0 ==> Occ(Limit(s, terms), d) > 0
  {
    if s != [] {
      var prefix, x := s[..|s| - 1], s[|s| - 1];
      LimitCount(prefix, terms, d);
      LimitCount(prefix, terms, DomainOf(x));
      var kept := Occ(prefix, DomainOf(x)) < Cap(DomainOf(x), terms);
      if kept {
        OccAppend(Limit(prefix, terms), x, d);
      } else {
        assert Limit(s, terms) == Limit(prefix, terms);
      }
    }
  }

  /** The limiter decides each result from the results it has already kept: the count the
      engine's loop keeps per domain is enough. */
  lemma LimitStep(s: seq<Ranked>, x: Ranked, terms: seq<string>)
    ensures Limit(s + [x], terms) ==
      Limit(s, terms) + (if Occ(Limit(s, terms), DomainOf(x)) < Cap(DomainOf(x), terms) then [x] else [])
  {
    assert (s + [x])[..|s|] == s && (s + [x])[|s|] == x;
    LimitCount(s, terms, DomainOf(x));
  }

  lemma DomainsAppend(s: seq<Ranked>, x: Ranked)
    ensures Domains(s + [x]) == Domains(s) + {DomainOf(x)}
  {
    assert forall y :: y in s + [x] <==> y in s || y == x;
  }

  /** The output is the input with some results left out, the rest in their ranked order. */
  lemma {:induction false} LimitIsSubsequence(s: seq<Ranked>, terms: seq<string>)
    ensures IsSubsequence(Limit(s, terms), s)
  {
    if s != [] {
      var prefix, x := s[..|s| - 1], s[|s| - 1];
      var l := Limit(prefix, terms);
      LimitIsSubsequence(prefix, terms);
      if Limit(s, terms) == l + [x] {
        assert (l + [x])[..|l|] == l;
      } else {
        assert Limit(s, terms) == l;
      }
    }
  }

  /** The limiter drops results but never a whole domain. */
  lemma LimitKeepsDomains(s: seq<Ranked>, terms: seq<string>)
    ensures Domains(Limit(s, terms)) == Domains(s)
  {
    forall d ensures d in Domains(Limit(s, terms)) <==> d in Domains(s) {
      LimitCount(s, terms, d);
      OccPositive(s, d);
      OccPositive(Limit(s, terms), d);
    }
  }

  /** A sequence that no cap cuts is left as it is. */
  lemma {:induction false} LimitWithinCaps(s: seq<Ranked>, terms: seq<string>)
    requires forall d :: Occ(s, d) <= Cap(d, terms)
    ensures Limit(s, terms) == s
  {
    if s != [] {
      var prefix, x := s[..|s| - 1], s[|s| - 1];
      forall d ensures Occ(prefix, d) <= Cap(d, terms) {
        assert s == prefix + [x];
        OccAppend(prefix, x, d);
      }
      LimitWithinCaps(prefix, terms);
      assert s == prefix + [x];
      OccAppend(prefix, x, DomainOf(x));
    }
  }

  /** Limiting twice with the same terms is limiting once. */
  lemma LimitIdempotent(s: seq<Ranked>, terms: seq<string>)
    ensures Limit(Limit(s, terms), terms) == Limit(s, terms)
  {
    forall d ensures Occ(Limit(s, terms), d) <= Cap(d, terms) {
      LimitCount(s, terms, d);
    }
    LimitWithinCaps(Limit(s, terms), terms);
  }

  /** White space at either end of the input box yields an empty term, which every domain
      contains: then every domain gets the relaxed cap. */
  lemma SpaceAtEdgeRelaxesEveryCap(input: string, domain: string)
    requires input != [] && (IsSpace(input[0]) || IsSpace(input[|input| - 1]))
    ensures Cap(domain, LowerTerms(input)) == MatchingDomainCap
  {
    var terms := LowerTerms(input);
    var lowered := Lower(input);
    assert lowered[0] == LowerChar(input[0]) && lowered[|lowered| - 1] == LowerChar(input[|input| - 1]);
    if IsSpace(input[0]) {
      SplitLeadingSpace(lowered);
      assert terms[0] == "";
    } else {
      SplitTrailingSpace(lowered);
      assert terms[|terms| - 1] == "";
    }
    assert "" in terms;
  }
}
