/** The domain-guess source `fetchDomainMatch` (app.js:142-170): the query cleaned to
    lower-case letters and digits, tried under seven top-level domains. Whether a guessed
    site answers the probe is a parameter. */
module Candidates {
  import opened Text
  import opened Results
  import Ranking

  const Tlds: seq<string> := ["com", "net", "org", "io", "app", "dev", "games"]
  const CandidateRelevance: int := 100
  /** The candidates' own description; note that it has no final period. */
  const CandidateDescription: string := "This website has no description"

  predicate IsLowerAlnum(c: char) {
    ('a' <= c <= 'z') || ('0' <= c <= '9')
  }

  /** `.replace(/[^a-z0-9]/g, '')`: the characters outside `[a-z0-9]` are removed. */
  function KeepLowerAlnum(s: string): (r: string)
    ensures |r| <= |s|
    ensures forall i :: 0 <= i < |r| ==> IsLowerAlnum(r[i])
    ensures forall c :: IsLowerAlnum(c) ==> multiset(r)[c] == multiset(s)[c]
    ensures forall c :: !IsLowerAlnum(c) ==> multiset(r)[c] == 0
  {
    if s == [] then []
    else
      assert s == [s[0]] + s[1..];
      (if IsLowerAlnum(s[0]) then [s[0]] else []) + KeepLowerAlnum(s[1..])
  }

  /** The filter keeps the order of what it keeps: it works piece by piece. */
  lemma {:induction false} KeepLowerAlnumAppend(a: string, b: string)
    ensures KeepLowerAlnum(a + b) == KeepLowerAlnum(a) + KeepLowerAlnum(b)
  {
    if a == [] {
      assert a + b == b;
    } else {
      assert (a + b)[0] == a[0] && (a + b)[1..] == a[1..] + b;
      KeepLowerAlnumAppend(a[1..], b);
    }
  }

  /** Text that is already lower-case letters and digits passes unchanged. */
  lemma {:induction false} KeepLowerAlnumOfClean(s: string)
    requires forall i :: 0 <= i < |s| ==> IsLowerAlnum(s[i])
    ensures KeepLowerAlnum(s) == s
  {
    if s != [] {
      KeepLowerAlnumOfClean(s[1..]);
    }
  }

  /** `query.toLowerCase().replace(/[^a-z0-9]/g, '').replace(/\s+/g, '')`; the last step
      has nothing left to remove. */
  function CleanQuery(query: string): (clean: string)
    ensures forall i :: 0 <= i < |clean| ==> IsLowerAlnum(clean[i]) && !IsSpace(clean[i])
    ensures |clean| <= |query|
  {
    KeepLowerAlnum(Lower(query))
  }

  /** Cleaning is idempotent. */
  lemma CleanQueryIdempotent(query: string)
    ensures CleanQuery(CleanQuery(query)) == CleanQuery(query)
  {
    var c := CleanQuery(query);
    LowerOfClean(c);
    KeepLowerAlnumOfClean(c);
  }

  lemma LowerOfClean(s: string)
    requires forall i :: 0 <= i < |s| ==> IsLowerAlnum(s[i])
    ensures Lower(s) == s
  {
  }

  /** A query of lower-case letters and digits is its own cleaned form. */
  lemma CleanQueryOfClean(query: string)
    requires forall i :: 0 <= i < |query| ==> IsLowerAlnum(query[i])
    ensures CleanQuery(query) == query
  {
    LowerOfClean(query);
    KeepLowerAlnumOfClean(query);
  }

  /** The guessed site `clean.tld`. */
  function GuessedDomain(clean: string, tld: string): (d: string)
    ensures |d| == |clean| + 1 + |tld|
    ensures d[..|clean|] == clean && d[|clean|] == '.' && d[|clean| + 1..] == tld
  {
    clean + "." + tld
  }

  /** The result produced for a guessed site that answered the probe. */
  function Candidate(clean: string, tld: string): (x: SearchResult)
    ensures x.title == x.domain == GuessedDomain(clean, tld)
    ensures x.url == "https://" + x.domain
    ensures x.description == CandidateDescription && x.relevance == Some(CandidateRelevance)
  {
    var domain := GuessedDomain(clean, tld);
    SearchResult(domain, "https://" + domain, CandidateDescription, domain, Some(CandidateRelevance))
  }

  /** The candidate of one top-level domain: present exactly when its site answered. */
  function Answered(clean: string, tld: string, answers: string -> bool): (r: seq<SearchResult>)
    ensures |r| <= 1
    ensures r != [] <==> answers(GuessedDomain(clean, tld))
    ensures r != [] ==> r[0] == Candidate(clean, tld)
  {
    if answers(GuessedDomain(clean, tld)) then [Candidate(clean, tld)] else []
  }

  /** The candidates of `tlds`, in their order, for the sites that answered. */
  function CandidatesFor(clean: string, tlds: seq<string>, answers: string -> bool): (r: seq<SearchResult>)
    ensures |r| <= |tlds|
    ensures forall x :: x in r <==>
      exists t :: t in tlds && answers(GuessedDomain(clean, t)) && x == Candidate(clean, t)
  {
    if tlds == [] then []
    else
      var rest := CandidatesFor(clean, tlds[1..], answers);
      assert forall t :: t in tlds <==> t == tlds[0] || t in tlds[1..];
      Answered(clean, tlds[0], answers) + rest
  }

  /** One top-level domain gives its candidate when its site answered, and nothing else. */
  lemma CandidatesForOne(clean: string, tld: string, answers: string -> bool)
    ensures CandidatesFor(clean, [tld], answers) == Answered(clean, tld, answers)
  {
    assert [tld][1..] == [];
  }

  /** The probes are filtered in TLD order: the candidates of two runs of top-level domains
      are those of the first run followed by those of the second. */
  lemma {:induction false} CandidatesForAppend(clean: string, a: seq<string>, b: seq<string>, answers: string -> bool)
    ensures CandidatesFor(clean, a + b, answers) == CandidatesFor(clean, a, answers) + CandidatesFor(clean, b, answers)
  {
    if a == [] {
      assert a + b == b;
    } else {
      assert (a + b)[0] == a[0] && (a + b)[1..] == a[1..] + b;
      CandidatesForAppend(clean, a[1..], b, answers);
      AppendAssoc(Answered(clean, a[0], answers), CandidatesFor(clean, a[1..], answers), CandidatesFor(clean, b, answers));
    }
  }

  /** `fetchDomainMatch(query)`: one candidate per top-level domain whose site answered,
      in the order com, net, org, io, app, dev, games; at most seven. */
  function DomainCandidates(query: string, answers: string -> bool): (r: seq<SearchResult>)
    ensures |r| <= 7
    ensures forall x :: x in r <==>
      exists t :: t in Tlds && answers(GuessedDomain(CleanQuery(query), t)) && x == Candidate(CleanQuery(query), t)
  {
    CandidatesFor(CleanQuery(query), Tlds, answers)
  }

  /** The guesses come in the order of the top-level domain list, each present exactly when
      its site answered. */
  lemma DomainCandidatesInOrder(query: string, answers: string -> bool)
    ensures var c := CleanQuery(query);
      DomainCandidates(query, answers)
      == Answered(c, "com", answers) + (Answered(c, "net", answers) + (Answered(c, "org", answers)
       + (Answered(c, "io", answers) + (Answered(c, "app", answers) + (Answered(c, "dev", answers)
       + Answered(c, "games", answers))))))
  {
    var c := CleanQuery(query);
    assert Tlds == ["com"] + (["net"] + (["org"] + (["io"] + (["app"] + (["dev"] + ["games"])))));
    CandidatesForCons(c, "com", ["net"] + (["org"] + (["io"] + (["app"] + (["dev"] + ["games"])))), answers);
    CandidatesForCons(c, "net", ["org"] + (["io"] + (["app"] + (["dev"] + ["games"]))), answers);
    CandidatesForCons(c, "org", ["io"] + (["app"] + (["dev"] + ["games"])), answers);
    CandidatesForCons(c, "io", ["app"] + (["dev"] + ["games"]), answers);
    CandidatesForCons(c, "app", ["dev"] + ["games"], answers);
    CandidatesForCons(c, "dev", ["games"], answers);
    CandidatesForOne(c, "games", answers);
  }

  lemma CandidatesForCons(clean: string, tld: string, rest: seq<string>, answers: string -> bool)
    ensures CandidatesFor(clean, [tld] + rest, answers) == Answered(clean, tld, answers) + CandidatesFor(clean, rest, answers)
  {
    assert ([tld] + rest)[0] == tld && ([tld] + rest)[1..] == rest;
  }

  /** A list of results as a contribution, none of its entries null: entry `k` is the
      `k`-th result. */
  function AsContribution(items: seq<SearchResult>): (c: Contribution)
    ensures |c| == |items|
    ensures forall k :: 0 <= k < |c| ==> c[k] == Some(items[k])
    ensures forall x :: Some(x) in c <==> x in items
    ensures None !in c
  {
    if items == [] then [] else [Some(items[0])] + AsContribution(items[1..])
  }

  /** The merge gets back exactly the listed results, in their order. */
  lemma {:induction false} PresentInAsContribution(items: seq<SearchResult>)
    ensures PresentIn(AsContribution(items)) == items
  {
    if items != [] {
      AsContributionCons(items);
      PresentInCons(Some(items[0]), AsContribution(items[1..]));
      PresentInOne(Some(items[0]));
      PresentInAsContribution(items[1..]);
      ConsTail(items);
    }
  }

  lemma AsContributionCons(items: seq<SearchResult>)
    requires items != []
    ensures AsContribution(items) == [Some(items[0])] + AsContribution(items[1..])
  {
  }

  /** The contribution the source hands to the merge: its candidates in order, none of
      them null. */
  function DomainContribution(query: string, answers: string -> bool): (c: Contribution)
    ensures |c| == |DomainCandidates(query, answers)|
    ensures forall k :: 0 <= k < |c| ==> c[k] == Some(DomainCandidates(query, answers)[k])
    ensures forall x :: Some(x) in c <==> x in DomainCandidates(query, answers)
    ensures None !in c
  {
    AsContribution(DomainCandidates(query, answers))
  }

  /** The domain the ranker and the limiter read from a candidate's URL is the guessed
      site, except for the query `www`, whose `www.` is stripped and leaves the bare
      top-level domain. */
  lemma CandidateDomain(clean: string, tld: string)
    requires forall i :: 0 <= i < |clean| ==> IsLowerAlnum(clean[i])
    requires '/' !in tld
    ensures ExtractDomain(Candidate(clean, tld).url) == (if clean == "www" then tld else GuessedDomain(clean, tld))
  {
    var host := GuessedDomain(clean, tld);
    GuessedHostHasNoSlash(clean, tld);
    assert "https:" + "/" + "" + "/" + host + "" == Candidate(clean, tld).url;
    ExtractDomainOfUrl("https:", "", host, "");
    GuessedHostWww(clean, tld);
  }

  /** A guessed host holds a slash only where its top-level domain does. */
  lemma GuessedHostHasNoSlash(clean: string, tld: string)
    requires forall i :: 0 <= i < |clean| ==> IsLowerAlnum(clean[i])
    requires '/' !in tld
    ensures '/' !in GuessedDomain(clean, tld)
  {
    var host := GuessedDomain(clean, tld);
    forall i | 0 <= i < |host| ensures host[i] != '/' {
      if i < |clean| {
        assert host[i] == clean[i];
      } else if i > |clean| {
        assert host[i] == tld[i - |clean| - 1];
      }
    }
  }

  /** A guessed host starts with `www.` exactly when the cleaned query is `www`. */
  lemma GuessedHostWww(clean: string, tld: string)
    requires forall i :: 0 <= i < |clean| ==> IsLowerAlnum(clean[i])
    ensures "www." <= GuessedDomain(clean, tld) <==> clean == "www"
    ensures clean == "www" ==> GuessedDomain(clean, tld) == "www." + tld
  {
    var host := GuessedDomain(clean, tld);
    assert host[|clean|] == '.';
    assert forall i :: 0 <= i < |clean| ==> host[i] == clean[i];
    if "www." <= host {
      assert host[..4] == "www.";
      assert forall i :: 0 <= i < 3 ==> host[i] == 'w';
      assert host[3] == '.';
      assert |clean| == 3;
      assert clean == host[..3] == "www";
    }
    if clean == "www" {
      assert host == "www." + tld;
      assert host[..4] == "www.";
    }
  }

  /** The guessed domains and titles are lower-case and start with the query. */
  lemma GuessStartsWithQuery(query: string, tld: string)
    requires forall i :: 0 <= i < |query| ==> IsLowerAlnum(query[i])
    requires tld in Tlds
    ensures Lower(GuessedDomain(query, tld)) == GuessedDomain(query, tld)
    ensures Ranking.StartsWithQuery(GuessedDomain(query, tld), query)
    ensures Contains(GuessedDomain(query, tld), Lower(query))
    ensures tld == "com" ==> EndsWith(GuessedDomain(query, tld), ".com")
  {
    var d := GuessedDomain(query, tld);
    TldIsLowerAlnum(tld);
    GuessedDomainIsLower(query, tld);
    assert query <= d;
    LowerOfClean(query);
    PrefixIsContained(query, d);
    if tld == "com" {
      GuessedDotCom(query);
    }
  }

  /** A guess for a clean query is already lower-case. */
  lemma GuessedDomainIsLower(query: string, tld: string)
    requires forall i :: 0 <= i < |query| ==> IsLowerAlnum(query[i])
    requires forall i :: 0 <= i < |tld| ==> IsLowerAlnum(tld[i])
    ensures Lower(GuessedDomain(query, tld)) == GuessedDomain(query, tld)
  {
    var d := GuessedDomain(query, tld);
    forall i | 0 <= i < |d| ensures !('A' <= d[i] <= 'Z') {
      if i < |query| {
        assert d[i] == query[i];
      } else if i > |query| {
        assert d[i] == tld[i - |query| - 1];
      }
    }
  }

  /** The top-level domains are written in lower-case letters. */
  lemma TldIsLowerAlnum(tld: string)
    requires tld in Tlds
    ensures forall i :: 0 <= i < |tld| ==> IsLowerAlnum(tld[i])
  {
    if tld == "com" {
    } else if tld == "net" {
    } else if tld == "org" {
    } else if tld == "io" {
    } else if tld == "app" {
    } else if tld == "dev" {
    } else {
      assert tld == "games";
    }
  }

  /** The `.com` guess ends in `.com`. */
  lemma GuessedDotCom(query: string)
    ensures EndsWith(GuessedDomain(query, "com"), ".com")
  {
    var d := GuessedDomain(query, "com");
    assert d[|d| - 4..] == [d[|query|]] + d[|query| + 1..];
  }

  /** A candidate for a short query carries no length penalty. */
  lemma CandidateUnpenalised(clean: string, tld: string)
    requires forall i :: 0 <= i < |clean| ==> IsLowerAlnum(clean[i])
    requires |clean| <= 94 && tld in Tlds
    ensures Ranking.Penalty(Candidate(clean, tld)) == 0
  {
    var x := Candidate(clean, tld);
    var title := Lower(x.title);
    assert forall i :: 0 <= i < |title| ==> title[i] as int <= 0xFFFF;
    Utf16LengthBasicPlane(title);
  }

  /** The domain of a guess earns the prefix and containment bonuses, and the `.com` bonus
      for the `.com` guess. */
  lemma GuessDomainBonus(query: string, tld: string)
    requires forall i :: 0 <= i < |query| ==> IsLowerAlnum(query[i])
    requires tld in Tlds
    ensures Ranking.DomainBonus(GuessedDomain(query, tld), query) >=
      Ranking.PrefixDomainBonus + Ranking.DomainContainsBonus + (if tld == "com" then Ranking.DotComBonus else 0)
  {
    GuessStartsWithQuery(query, tld);
  }

  /** The title of a guess earns the title prefix bonus. */
  lemma GuessTitleBonus(query: string, tld: string)
    requires forall i :: 0 <= i < |query| ==> IsLowerAlnum(query[i])
    requires tld in Tlds
    ensures Ranking.TitleBonus(Lower(GuessedDomain(query, tld)), query) >= Ranking.PrefixTitleBonus
  {
    GuessStartsWithQuery(query, tld);
  }

  /** A candidate for a lower-case alphanumeric query of at most 94 characters (which is
      its own cleaned form, `CleanQueryOfClean`) earns the prefix bonus on both domain and
      title and the containment bonus, and the `.com` bonus for the `.com` guess: with its
      relevance, at least 3400 (3600 for `.com`). */
  lemma CandidateScore(query: string, tld: string)
    requires forall i :: 0 <= i < |query| ==> IsLowerAlnum(query[i])
    requires query != "www" && |query| <= 94
    requires tld in Tlds
    ensures Ranking.Score(query, Candidate(query, tld)) >=
      CandidateRelevance + Ranking.PrefixDomainBonus + Ranking.DomainContainsBonus + Ranking.PrefixTitleBonus
      + (if tld == "com" then Ranking.DotComBonus else 0)
  {
    var x := Candidate(query, tld);
    CandidateDomain(query, tld);
    GuessDomainBonus(query, tld);
    GuessTitleBonus(query, tld);
    CandidateUnpenalised(query, tld);
    Ranking.ScoreAtLeastBonuses(query, x);
  }
}
