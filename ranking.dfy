/** The ranker `rankResults` (app.js:288-322): every result gets an integer composite
    score, and the results are sorted by descending score with a stable sort.

    The source builds its regular expressions from the raw query. They are modelled here
    as the literal, case-insensitive string tests they are when the query holds no
    regular-expression metacharacter. */
module Ranking {
  import opened Text
  import opened Results

  const ExactDomainBonus: nat := 2000
  const ExactTitleBonus: nat := 1500
  const PrefixDomainBonus: nat := 1000
  const PrefixTitleBonus: nat := 800
  const WholeWordTitleBonus: nat := 600
  const TermMatchBonus: nat := 50
  const DomainContainsBonus: nat := 1500
  const DotComBonus: nat := 200
  const LongTitlePenalty: nat := 100
  const LongDescriptionPenalty: nat := 50
  const TitleLengthLimit: nat := 100
  const DescriptionLengthLimit: nat := 300

  // ---------------------------------------------------------------------------
  // The three anchored tests of the query

  /** `new RegExp('^' + query + '$', 'i').test(s)` */
  predicate MatchesExactly(s: string, query: string)
    ensures MatchesExactly(s, query) ==> StartsWithQuery(s, query) && |s| == |query|
  {
    Lower(s) == Lower(query)
  }

  /** `new RegExp('^' + query, 'i').test(s)` */
  predicate StartsWithQuery(s: string, query: string)
    ensures StartsWithQuery(s, query) ==> |query| <= |s|
  {
    Lower(query) <= Lower(s)
  }

  predicate IsWordAt(s: string, i: int) {
    0 <= i < |s| && IsWordChar(s[i])
  }

  /** `\b` holds before position `i` of `s`: exactly one of its neighbours is a word character
      (a position outside the text counts as a non-word character). */
  predicate IsBoundary(s: string, i: int) {
    IsWordAt(s, i - 1) != IsWordAt(s, i)
  }

  /** `new RegExp('\\b' + query + '\\b', 'i').test(s)` */
  predicate ContainsAsWord(s: string, query: string)
    ensures ContainsAsWord(s, query) ==> Contains(Lower(s), Lower(query))
  {
    exists i | 0 <= i <= |s| - |query| ::
      OccursAt(Lower(s), Lower(query), i) && IsBoundary(s, i) && IsBoundary(s, i + |query|)
  }

  // ---------------------------------------------------------------------------
  // Counting the matches of the alternation of the query terms

  /** The alternation `t0|t1|...` tried at position `i`: the length of the first term, in
      term order, that occurs there. */
  function FirstTermAt(s: string, terms: seq<string>, i: nat): (m: Option<nat>)
    ensures m.Some? ==> i + m.value <= |s|
  {
    if terms == [] then None
    else if OccursAt(s, terms[0], i) then Some(|terms[0]|)
    else FirstTermAt(s, terms[1..], i)
  }

  /** The alternation finds no term exactly when none occurs at `i`, and otherwise finds the
      first term in order that occurs there. */
  lemma {:induction false} FirstTermAtIsFirst(s: string, terms: seq<string>, i: nat)
    ensures FirstTermAt(s, terms, i).None? <==> forall j :: 0 <= j < |terms| ==> !OccursAt(s, terms[j], i)
    ensures FirstTermAt(s, terms, i).Some? ==>
      exists j :: 0 <= j < |terms| && OccursAt(s, terms[j], i) && FirstTermAt(s, terms, i).value == |terms[j]| &&
        (forall j' :: 0 <= j' < j ==> !OccursAt(s, terms[j'], i))
  {
    if terms != [] && !OccursAt(s, terms[0], i) {
      FirstTermAtIsFirst(s, terms[1..], i);
      assert forall j :: 1 <= j < |terms| ==> terms[j] == terms[1..][j - 1];
      if FirstTermAt(s, terms, i).Some? {
        var j :| 0 <= j < |terms[1..]| && OccursAt(s, terms[1..][j], i) && FirstTermAt(s, terms, i).value == |terms[1..][j]| &&
          (forall j' :: 0 <= j' < j ==> !OccursAt(s, terms[1..][j'], i));
        assert OccursAt(s, terms[j + 1], i);
      }
    } else if terms != [] {
      assert OccursAt(s, terms[0], i);
    }
  }

  /** `s.match(/t0|t1|.../g).length` counted from position `i`: the leftmost match is taken,
      the scan resumes after it, and an empty match moves the scan on by one. */
  function MatchCount(s: string, terms: seq<string>, i: nat): (count: nat)
    requires i <= |s|
    ensures count <= |s| - i + 1
    decreases |s| - i
  {
    match FirstTermAt(s, terms, i)
    case Some(len) =>
      if len > 0 then 1 + MatchCount(s, terms, i + len)
      else if i < |s| then 1 + MatchCount(s, terms, i + 1)
      else 1
    case None =>
      if i < |s| then MatchCount(s, terms, i + 1) else 0
  }

  /** Some match is counted exactly when some term occurs somewhere in the scanned text. */
  lemma {:induction false} MatchCountPositive(s: string, terms: seq<string>, i: nat)
    requires i <= |s|
    ensures MatchCount(s, terms, i) > 0 <==>
      exists p, j :: i <= p <= |s| && 0 <= j < |terms| && OccursAt(s, terms[j], p)
    decreases |s| - i
  {
    FirstTermAtIsFirst(s, terms, i);
    match FirstTermAt(s, terms, i)
    case Some(len) =>
      var j :| 0 <= j < |terms| && OccursAt(s, terms[j], i);
    case None =>
      if i < |s| {
        MatchCountPositive(s, terms, i + 1);
      }
  }

  /** Matches do not overlap: with terms of at least `m` characters, the matches cover at
      most the scanned text. */
  lemma MatchCountBound(s: string, terms: seq<string>, i: nat, m: nat)
    requires i <= |s| && m >= 1
    requires forall j :: 0 <= j < |terms| ==> |terms[j]| >= m
    ensures MatchCount(s, terms, i) * m <= |s| - i
  {
    MatchesCover(s, terms, i, m);
    RepeatedIsProduct(MatchCount(s, terms, i), m);
  }

  /** `c` copies of `m` added up. */
  function Repeated(c: nat, m: nat): nat {
    if c == 0 then 0 else m + Repeated(c - 1, m)
  }

  lemma {:induction false} RepeatedIsProduct(c: nat, m: nat)
    ensures Repeated(c, m) == c * m
  {
    if c > 0 {
      RepeatedIsProduct(c - 1, m);
    }
  }

  /** `MatchCountBound` stated with repeated addition, so that its induction is linear. */
  lemma {:induction false} MatchesCover(s: string, terms: seq<string>, i: nat, m: nat)
    requires i <= |s| && m >= 1
    requires forall j :: 0 <= j < |terms| ==> |terms[j]| >= m
    ensures Repeated(MatchCount(s, terms, i), m) <= |s| - i
    decreases |s| - i
  {
    var first := FirstTermAt(s, terms, i);
    var total := MatchCount(s, terms, i);
    FirstTermAtLeast(s, terms, i, m);
    MatchCountStep(s, terms, i);
    if first.Some? {
      var len := first.value;
      assert len >= m;
      var c := MatchCount(s, terms, i + len);
      assert total == c + 1;
      assert Repeated(total, m) == m + Repeated(c, m);
      MatchesCover(s, terms, i + len, m);
    } else if i < |s| {
      var c := MatchCount(s, terms, i + 1);
      assert total == c;
      MatchesCover(s, terms, i + 1, m);
      assert Repeated(total, m) <= |s| - i;
    } else {
      assert total == 0;
    }
  }

  /** One step of the scan. */
  lemma MatchCountStep(s: string, terms: seq<string>, i: nat)
    requires i <= |s|
    ensures var first := FirstTermAt(s, terms, i);
      && (first.Some? && first.value > 0 ==> MatchCount(s, terms, i) == 1 + MatchCount(s, terms, i + first.value))
      && (first.None? && i < |s| ==> MatchCount(s, terms, i) == MatchCount(s, terms, i + 1))
      && (first.None? && i == |s| ==> MatchCount(s, terms, i) == 0)
  {
  }

  lemma FirstTermAtLeast(s: string, terms: seq<string>, i: nat, m: nat)
    requires forall j :: 0 <= j < |terms| ==> |terms[j]| >= m
    ensures FirstTermAt(s, terms, i).Some? ==> FirstTermAt(s, terms, i).value >= m
  {
    if FirstTermAt(s, terms, i).Some? {
      FirstTermAtIsFirst(s, terms, i);
      var j :| 0 <= j < |terms| && FirstTermAt(s, terms, i).value == |terms[j]|;
    }
  }

  // ---------------------------------------------------------------------------
  // The composite score

  /** `result.relevance || 0` */
  function BaseScore(x: SearchResult): (v: int)
    ensures x.relevance == Some(v) || (x.relevance == None && v == 0)
  {
    match x.relevance
    case Some(v) => v
    case None => 0
  }

  /** The signals read from the domain extracted from the URL (not lower-cased). */
  function DomainBonus(domain: string, query: string): (bonus: nat)
    ensures bonus <= ExactDomainBonus + PrefixDomainBonus + DomainContainsBonus + DotComBonus
    ensures bonus == 0 <==> !StartsWithQuery(domain, query) && !Contains(domain, Lower(query))
  {
    (if MatchesExactly(domain, query) then ExactDomainBonus else 0)
    + (if StartsWithQuery(domain, query) then PrefixDomainBonus else 0)
    + (if Contains(domain, Lower(query))
       then DomainContainsBonus + (if EndsWith(domain, ".com") then DotComBonus else 0)
       else 0)
  }

  /** The signals read from the lower-cased title. */
  function TitleBonus(title: string, query: string): (bonus: nat)
    ensures bonus <= ExactTitleBonus + PrefixTitleBonus + WholeWordTitleBonus
    ensures bonus == 0 <==> !StartsWithQuery(title, query) && !ContainsAsWord(title, query)
  {
    (if MatchesExactly(title, query) then ExactTitleBonus else 0)
    + (if StartsWithQuery(title, query) then PrefixTitleBonus else 0)
    + (if ContainsAsWord(title, query) then WholeWordTitleBonus else 0)
  }

  /** `(title + ' ' + description).match(queryRegex).length`: positive exactly when some
      term of the query occurs in the text, and at most one match per position. */
  function TermMatches(title: string, description: string, query: string): (n: nat)
    ensures n <= |title| + |description| + 2
    ensures var s, terms := title + " " + description, LowerTerms(query);
      n > 0 <==> exists p, j :: 0 <= p <= |s| && 0 <= j < |terms| && OccursAt(s, terms[j], p)
  {
    MatchCountPositive(title + " " + description, LowerTerms(query), 0);
    MatchCount(title + " " + description, LowerTerms(query), 0)
  }

  /** The length penalties, on the lower-cased title and description. */
  function Penalty(x: SearchResult): (p: nat)
    ensures p <= LongTitlePenalty + LongDescriptionPenalty
    ensures p == 0 <==> Utf16Length(Lower(x.title)) <= TitleLengthLimit
                        && Utf16Length(Lower(x.description)) <= DescriptionLengthLimit
  {
    (if Utf16Length(Lower(x.title)) > TitleLengthLimit then LongTitlePenalty else 0)
    + (if Utf16Length(Lower(x.description)) > DescriptionLengthLimit then LongDescriptionPenalty else 0)
  }

  /** The composite score of one result for `query`. */
  function Score(query: string, x: SearchResult): (s: int)
    ensures s >= BaseScore(x) - (LongTitlePenalty + LongDescriptionPenalty)
  {
    var domain := ExtractDomain(x.url);
    var title := Lower(x.title);
    var description := Lower(x.description);
    BaseScore(x) + DomainBonus(domain, query) + TitleBonus(title, query)
    + TermMatchBonus * TermMatches(title, description, query) - Penalty(x)
  }

  /** The term matches never lower a score. */
  lemma ScoreAtLeastBonuses(query: string, x: SearchResult)
    ensures Score(query, x) >= BaseScore(x) + DomainBonus(ExtractDomain(x.url), query)
      + TitleBonus(Lower(x.title), query) - Penalty(x)
  {
  }

  /** A result whose (lower-case) extracted domain is the query collects the exact, prefix
      and containment domain bonuses, and the `.com` bonus when it applies. */
  lemma ExactDomainScore(query: string, x: SearchResult)
    requires var d := ExtractDomain(x.url); d == Lower(d) && d == Lower(query)
    ensures Score(query, x) >= BaseScore(x) + ExactDomainBonus + PrefixDomainBonus + DomainContainsBonus
      + (if EndsWith(ExtractDomain(x.url), ".com") then DotComBonus else 0) - Penalty(x)
  {
    var d := ExtractDomain(x.url);
    ContainsItself(d);
    assert MatchesExactly(d, query) && StartsWithQuery(d, query) && Contains(d, Lower(query));
    assert DomainBonus(d, query) == ExactDomainBonus + PrefixDomainBonus + DomainContainsBonus
      + (if EndsWith(d, ".com") then DotComBonus else 0);
  }

  /** Of two results that differ only in their URL, one whose domain is the query outranks
      one whose domain does not contain it by at least the three domain bonuses. */
  lemma ExactDomainOutranks(query: string, a: SearchResult, b: SearchResult)
    requires a.(url := b.url) == b
    requires var d := ExtractDomain(a.url); d == Lower(d) && d == Lower(query)
    requires var d := ExtractDomain(b.url); d == Lower(d) && !Contains(d, Lower(query))
    ensures Score(query, a) >= Score(query, b) + ExactDomainBonus + PrefixDomainBonus + DomainContainsBonus
  {
    var da, db := ExtractDomain(a.url), ExtractDomain(b.url);
    ContainsItself(da);
    ContainsItself(db);
    PrefixIsContained(Lower(query), db);
    assert DomainBonus(db, query) == 0;
    assert DomainBonus(da, query) >= ExactDomainBonus + PrefixDomainBonus + DomainContainsBonus;
    assert a.title == b.title && a.description == b.description && a.relevance == b.relevance;
  }

  // ---------------------------------------------------------------------------
  // Stable sort by descending score

  ghost predicate SortedByScore(s: seq<Ranked>) {
    forall i, j :: 0 <= i < j < |s| ==> s[i].score >= s[j].score
  }

  /** The elements with score `v`, in their order in `s`. A sort is stable exactly when it
      leaves each of these subsequences as it was. */
  function WithScore(s: seq<Ranked>, v: int): (r: seq<Ranked>)
    ensures forall x :: x in r <==> x in s && x.score == v
  {
    if s == [] then [] else (if s[0].score == v then [s[0]] else []) + WithScore(s[1..], v)
  }

  lemma WithScoreCons(y: Ranked, t: seq<Ranked>)
    ensures forall v :: WithScore([y] + t, v) == (if y.score == v then [y] else []) + WithScore(t, v)
  {
    assert ([y] + t)[0] == y && ([y] + t)[1..] == t;
  }

  lemma WithScoreHead(s: seq<Ranked>)
    requires s != []
    ensures WithScore(s, s[0].score) != []
  {
    assert s[0] in WithScore(s, s[0].score);
  }

  /** Insert `x` before the first element whose score is not higher. */
  function InsertByScore(x: Ranked, s: seq<Ranked>): seq<Ranked> {
    if s == [] || s[0].score <= x.score then [x] + s else [s[0]] + InsertByScore(x, s[1..])
  }

  lemma {:induction false} InsertByScoreMultiset(x: Ranked, s: seq<Ranked>)
    ensures multiset(InsertByScore(x, s)) == multiset(s) + multiset{x}
  {
    if s != [] && s[0].score > x.score {
      InsertByScoreMultiset(x, s[1..]);
      assert s == [s[0]] + s[1..];
    }
  }

  ghost predicate ScoresAtMost(s: seq<Ranked>, bound: int) {
    forall k :: 0 <= k < |s| ==> s[k].score <= bound
  }

  lemma {:induction false} InsertByScoreAtMost(x: Ranked, s: seq<Ranked>, bound: int)
    requires ScoresAtMost(s, bound) && x.score <= bound
    ensures ScoresAtMost(InsertByScore(x, s), bound)
  {
    if s != [] && s[0].score > x.score {
      InsertByScoreAtMost(x, s[1..], bound);
    }
  }

  lemma ConsSorted(y: Ranked, t: seq<Ranked>)
    requires SortedByScore(t) && ScoresAtMost(t, y.score)
    ensures SortedByScore([y] + t)
  {
    var r := [y] + t;
    forall i, j | 0 <= i < j < |r| ensures r[i].score >= r[j].score {
      assert r[j] == t[j - 1];
      if i > 0 {
        assert r[i] == t[i - 1];
      }
    }
  }

  lemma {:induction false} InsertByScoreSorted(x: Ranked, s: seq<Ranked>)
    requires SortedByScore(s)
    ensures SortedByScore(InsertByScore(x, s))
  {
    if s == [] || s[0].score <= x.score {
      ConsSorted(x, s);
    } else {
      InsertByScoreSorted(x, s[1..]);
      InsertByScoreAtMost(x, s[1..], s[0].score);
      ConsSorted(s[0], InsertByScore(x, s[1..]));
    }
  }

  lemma {:induction false} InsertByScoreStable(x: Ranked, s: seq<Ranked>)
    ensures forall v :: WithScore(InsertByScore(x, s), v) == (if x.score == v then [x] else []) + WithScore(s, v)
  {
    WithScoreCons(x, s);
    if s != [] && s[0].score > x.score {
      var t := InsertByScore(x, s[1..]);
      InsertByScoreStable(x, s[1..]);
      WithScoreCons(s[0], t);
      WithScoreCons(s[0], s[1..]);
      assert s == [s[0]] + s[1..];
    }
  }

  /** Insertion sort: stable, by descending score. */
  function SortByScore(s: seq<Ranked>): (r: seq<Ranked>)
    ensures multiset(r) == multiset(s)
    ensures SortedByScore(r)
    ensures forall v :: WithScore(r, v) == WithScore(s, v)
  {
    if s == [] then []
    else
      var t := SortByScore(s[1..]);
      SortStep(s, t);
      InsertByScore(s[0], t)
  }

  /** Inserting the first element into a sorted, stable permutation of the rest gives a
      sorted, stable permutation of the whole. */
  lemma SortStep(s: seq<Ranked>, t: seq<Ranked>)
    requires s != []
    requires multiset(t) == multiset(s[1..]) && SortedByScore(t)
    requires forall v :: WithScore(t, v) == WithScore(s[1..], v)
    ensures var r := InsertByScore(s[0], t);
      && multiset(r) == multiset(s) && SortedByScore(r)
      && forall v :: WithScore(r, v) == WithScore(s, v)
  {
    InsertByScoreMultiset(s[0], t);
    InsertByScoreSorted(s[0], t);
    InsertByScoreStable(s[0], t);
    WithScoreCons(s[0], s[1..]);
    assert s == [s[0]] + s[1..];
  }

  /** Sortedness and stability determine the output: any stable sort by descending score
      (such as `Array.prototype.sort` with `(a, b) => b.score - a.score`) returns the same
      sequence as `SortByScore`. */
  lemma {:induction false} StableSortIsUnique(a: seq<Ranked>, b: seq<Ranked>)
    requires SortedByScore(a) && SortedByScore(b)
    requires forall v :: WithScore(a, v) == WithScore(b, v)
    ensures a == b
    decreases |a|
  {
    if a == [] {
      if b != [] {
        WithScoreHead(b);
        assert false;
      }
    } else if b == [] {
      WithScoreHead(a);
      assert false;
    } else {
      SameHead(a, b);
      SameTails(a, b);
      StableSortIsUnique(a[1..], b[1..]);
      assert a == [a[0]] + a[1..] && b == [b[0]] + b[1..];
    }
  }

  /** The run of a sequence's first score starts with its first element. */
  lemma WithScoreFirst(s: seq<Ranked>)
    requires s != []
    ensures WithScore(s, s[0].score) != [] && WithScore(s, s[0].score)[0] == s[0]
  {
  }

  /** Two sorted sequences with the same runs of equal scores start with the same score. */
  lemma SameTopScore(a: seq<Ranked>, b: seq<Ranked>)
    requires a != [] && b != []
    requires SortedByScore(a) && SortedByScore(b)
    requires WithScore(a, a[0].score) == WithScore(b, a[0].score)
    requires WithScore(a, b[0].score) == WithScore(b, b[0].score)
    ensures a[0].score == b[0].score
  {
    assert a[0] in WithScore(a, a[0].score);
    assert b[0] in WithScore(b, b[0].score);
    assert a[0] in b && b[0] in a;
  }

  /** Two sorted sequences with the same runs of equal scores start with the same element. */
  lemma SameHead(a: seq<Ranked>, b: seq<Ranked>)
    requires a != [] && b != []
    requires SortedByScore(a) && SortedByScore(b)
    requires forall v :: WithScore(a, v) == WithScore(b, v)
    ensures a[0] == b[0]
  {
    assert WithScore(a, a[0].score) == WithScore(b, a[0].score);
    assert WithScore(a, b[0].score) == WithScore(b, b[0].score);
    SameTopScore(a, b);
    WithScoreFirst(a);
    WithScoreFirst(b);
  }

  /** Removing the same first element keeps the runs of equal scores equal. */
  lemma SameTails(a: seq<Ranked>, b: seq<Ranked>)
    requires a != [] && b != [] && a[0] == b[0]
    requires forall v :: WithScore(a, v) == WithScore(b, v)
    ensures forall w :: WithScore(a[1..], w) == WithScore(b[1..], w)
  {
    forall w ensures WithScore(a[1..], w) == WithScore(b[1..], w) {
      SameTailRun(a, b, w);
    }
  }

  lemma SameTailRun(a: seq<Ranked>, b: seq<Ranked>, w: int)
    requires a != [] && b != [] && a[0] == b[0]
    requires WithScore(a, w) == WithScore(b, w)
    ensures WithScore(a[1..], w) == WithScore(b[1..], w)
  {
    var p := if a[0].score == w then [a[0]] else [];
    assert WithScore(a, w) == p + WithScore(a[1..], w);
    assert WithScore(b, w) == p + WithScore(b[1..], w);
    assert WithScore(a[1..], w) == (p + WithScore(a[1..], w))[|p|..];
    assert WithScore(b[1..], w) == (p + WithScore(b[1..], w))[|p|..];
  }

  // ---------------------------------------------------------------------------
  // rankResults

  /** `results.map(result => ({ ...result, score }))` */
  function ScoreAll(query: string, results: seq<SearchResult>): (r: seq<Ranked>)
    ensures |r| == |results|
    ensures forall k :: 0 <= k < |r| ==> r[k] == Ranked(results[k], Score(query, results[k]))
  {
    seq(|results|, k requires 0 <= k < |results| => Ranked(results[k], Score(query, results[k])))
  }

  /** `rankResults(query, results)`: each result paired with its score, then sorted. */
  function Rank(query: string, results: seq<SearchResult>): (r: seq<Ranked>)
    ensures |r| == |results|
  {
    var scored := ScoreAll(query, results);
    var r := SortByScore(scored);
    assert |multiset(r)| == |multiset(scored)|;
    r
  }

  /** The ranked results are the scored input, sorted by non-increasing score, results of
      equal score in their input order; each is an input result with its own score added. */
  lemma RankIsStableSort(query: string, results: seq<SearchResult>)
    ensures var r := Rank(query, results);
      && SortedByScore(r)
      && multiset(r) == multiset(ScoreAll(query, results))
      && (forall v :: WithScore(r, v) == WithScore(ScoreAll(query, results), v))
      && (forall x :: x in r ==> x.score == Score(query, x.result))
  {
    var scored := ScoreAll(query, results);
    var r := Rank(query, results);
    assert forall x :: x in r ==> x in multiset(scored);
  }
}
