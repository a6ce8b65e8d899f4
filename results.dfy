/** The common result shape, the flatten-and-default step that merges the sources'
    contributions (app.js:126-133), and domain extraction from a URL (app.js:280-286). */
module Results {
  import opened Text

  datatype Option<+T> = None | Some(value: T)

  /** One search result. An empty `description` stands for every falsy description
      (missing, null or empty), which the engine treats alike; `relevance` is the
      source's base weight, absent when the source gives none. */
  datatype SearchResult = SearchResult(
    title: string,
    url: string,
    description: string,
    domain: string,
    relevance: Option<int>)

  /** A result with the composite score the ranker attaches to it. */
  datatype Ranked = Ranked(result: SearchResult, score: int)

  /** What one source hands over: its list of results, where an entry may be null. */
  type Contribution = seq<Option<SearchResult>>

  const NoDescription: string := "This website has no description."

  // ---------------------------------------------------------------------------
  // Flattening and defaulting

  /** The non-null entries of one contribution, in order. */
  function PresentIn(items: Contribution): (r: seq<SearchResult>)
    ensures |r| <= |items|
    ensures forall x :: x in r <==> Some(x) in items
  {
    if items == [] then []
    else (match items[0] case Some(x) => [x] case None => []) + PresentIn(items[1..])
  }

  /** A single entry is kept exactly when it is not null. */
  lemma PresentInOne(e: Option<SearchResult>)
    ensures PresentIn([e]) == (match e case Some(x) => [x] case None => [])
  {
    assert [e][1..] == [];
  }

  /** Within one contribution the kept entries stay in order: the kept entries of two
      stretches of a list are those of the first followed by those of the second. */
  lemma {:induction false} PresentInAppend(a: Contribution, b: Contribution)
    ensures PresentIn(a + b) == PresentIn(a) + PresentIn(b)
  {
    if a != [] {
      assert [a[0]] + a[1..] == a;
      AppendAssoc([a[0]], a[1..], b);
      PresentInCons(a[0], a[1..] + b);
      PresentInAppend(a[1..], b);
      PresentInCons(a[0], a[1..]);
      AppendAssoc(PresentIn([a[0]]), PresentIn(a[1..]), PresentIn(b));
    } else {
      assert a + b == b;
    }
  }

  lemma PresentInCons(e: Option<SearchResult>, rest: Contribution)
    ensures PresentIn([e] + rest) == PresentIn([e]) + PresentIn(rest)
  {
    assert ([e] + rest)[0] == e && ([e] + rest)[1..] == rest;
    assert [e][1..] == [];
  }

  /** The non-null entries of all contributions, source after source. */
  function Present(contributions: seq<Contribution>): (r: seq<SearchResult>)
    ensures forall x :: x in r <==> exists i :: 0 <= i < |contributions| && Some(x) in contributions[i]
  {
    if contributions == [] then []
    else
      var r := PresentIn(contributions[0]) + Present(contributions[1..]);
      assert forall x :: (exists i :: 0 <= i < |contributions| && Some(x) in contributions[i]) ==>
        Some(x) in contributions[0] || exists i :: 0 <= i < |contributions[1..]| && Some(x) in contributions[1..][i];
      r
  }

  /** Contributions are merged in order: the result of two runs of sources is the
      result of the first run followed by that of the second. */
  lemma {:induction false} PresentAppend(a: seq<Contribution>, b: seq<Contribution>)
    ensures Present(a + b) == Present(a) + Present(b)
  {
    if a == [] {
      assert a + b == b;
    } else {
      assert (a + b)[0] == a[0] && (a + b)[1..] == a[1..] + b;
      PresentAppend(a[1..], b);
    }
  }

  /** The number of entries of a contribution that are not null. */
  function NonNullIn(items: Contribution): nat {
    if items == [] then 0 else (if items[0].Some? then 1 else 0) + NonNullIn(items[1..])
  }

  /** The number of entries of all contributions that are not null. */
  function NonNullCount(contributions: seq<Contribution>): nat {
    if contributions == [] then 0 else NonNullIn(contributions[0]) + NonNullCount(contributions[1..])
  }

  lemma {:induction false} PresentInCount(items: Contribution)
    ensures |PresentIn(items)| == NonNullIn(items)
  {
    if items != [] {
      PresentInCount(items[1..]);
    }
  }

  /** The merge keeps one result per non-null entry, and no more. */
  lemma {:induction false} PresentCount(contributions: seq<Contribution>)
    ensures |Present(contributions)| == NonNullCount(contributions)
  {
    if contributions != [] {
      PresentInCount(contributions[0]);
      PresentCount(contributions[1..]);
    }
  }

  /** `description: result.description || 'This website has no description.'` */
  function WithDescription(x: SearchResult): (y: SearchResult)
    ensures y.description != ""
    ensures y.(description := x.description) == x
    ensures x.description != "" ==> y == x
  {
    if x.description == "" then x.(description := NoDescription) else x
  }

  /** `results.flat().filter(Boolean).map(...)`: every non-null entry, in order, with a
      falsy description replaced by the placeholder. */
  function Flatten(contributions: seq<Contribution>): (r: seq<SearchResult>)
    ensures |r| == |Present(contributions)|
    ensures forall k :: 0 <= k < |r| ==> r[k].description != ""
    ensures forall k :: 0 <= k < |r| ==>
      var x := Present(contributions)[k];
      r[k].(description := x.description) == x &&
      r[k].description == (if x.description == "" then NoDescription else x.description)
  {
    var present := Present(contributions);
    seq(|present|, k requires 0 <= k < |present| => WithDescription(present[k]))
  }

  /** When every source failed or timed out, each contributed nothing, and so does the merge. */
  lemma {:induction false} NothingFromNoSource(contributions: seq<Contribution>)
    requires forall i :: 0 <= i < |contributions| ==> contributions[i] == []
    ensures Flatten(contributions) == []
  {
    if contributions != [] {
      NothingFromNoSource(contributions[1..]);
    }
  }

  // ---------------------------------------------------------------------------
  // Domain extraction

  /** `.replace(/^www\./, '')`: one leading `www.` is removed. */
  function StripWww(host: string): (r: string)
    ensures "www." <= host ==> host == "www." + r
    ensures !("www." <= host) ==> r == host
  {
    if "www." <= host then host[4..] else host
  }

  /** `extractDomain(url)`: the third `/`-separated piece of the URL without a leading
      `www.`; when there is no third piece, reading it fails and the URL itself is returned. */
  function ExtractDomain(url: string): (d: string)
    ensures Occurrences(url, '/') < 2 ==> d == url
    ensures Occurrences(url, '/') >= 2 ==> '/' !in d
  {
    SplitLength(url, '/');
    SplitPiecesLackSeparator(url, '/');
    var parts := Split(url, '/');
    if |parts| >= 3 then
      assert '/' !in parts[2];
      StripWww(parts[2])
    else url
  }

  /** The first piece of a split runs up to the first separator. */
  lemma FirstPiece(a: string, sep: char, b: string)
    requires sep !in a
    requires b == [] || b[0] == sep
    ensures Split(a + b, sep)[0] == a
  {
    var s := a + b;
    assert IndexOf(s, sep) == |a|;
    assert s[..|a|] == a;
  }

  /** A URL with at least two `/` is `a/b/host` followed by nothing or by a path, where
      none of `a`, `b` and `host` holds a `/`; its domain is the host without a leading
      `www.`. For the usual shape `scheme://host/path`, `b` is empty. */
  lemma ExtractDomainOfUrl(a: string, b: string, host: string, path: string)
    requires '/' !in a && '/' !in b && '/' !in host
    requires path == [] || path[0] == '/'
    ensures ExtractDomain(a + "/" + b + "/" + host + path) == StripWww(host)
  {
    var rest := host + path;
    var url := a + "/" + b + "/" + host + path;
    assert url == a + ['/'] + (b + ['/'] + rest);
    SplitAfterFirst(a, '/', b + ['/'] + rest);
    SplitAfterFirst(b, '/', rest);
    var parts := Split(url, '/');
    assert parts == [a] + ([b] + Split(rest, '/'));
    FirstPiece(host, '/', path);
    assert parts[2] == host;
  }
}
