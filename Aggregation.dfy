/**
 * The collection loop of `main`: every configured feed is fetched, parsed and
 * normalised in configuration order, and its articles are appended to one list.
 */
module Aggregation {
  import opened Entries

  /** One entry of the feed configuration list. */
  datatype FeedSource = FeedSource(source: string, country: string, url: string)

  /**
   * What one fetch produces: the entries the feed parser found in the response
   * body, or the error that `requests` raised (connection, timeout, non-2xx status).
   */
  datatype FetchOutcome = Fetched(entries: seq<RawEntry>) | FetchFailed(error: string)

  /** `fetch_feed(url).entries`: a failure is caught and parsing an empty document gives no entries. */
  function FetchFeed(outcome: FetchOutcome): (entries: seq<RawEntry>)
    ensures outcome.FetchFailed? ==> entries == []
    ensures outcome.Fetched? ==> entries == outcome.entries
  {
    match outcome
    case Fetched(es) => es
    case FetchFailed(_) => []
  }

  /** The articles one feed contributes in a run where `fetch` answers the network requests. */
  function FeedArticles(feed: FeedSource, fetch: FeedSource -> FetchOutcome, extract: string -> string): seq<Article>
  {
    NormalizeFeed(FetchFeed(fetch(feed)), feed.source, feed.country, extract)
  }

  /** The concatenation of a sequence of lists, in order. */
  function Flatten<T>(parts: seq<seq<T>>): seq<T>
  {
    if parts == [] then [] else Flatten(parts[..|parts| - 1]) + parts[|parts| - 1]
  }

  /** Flattening distributes over concatenation. */
  lemma {:induction false} FlattenAppend<T>(a: seq<seq<T>>, b: seq<seq<T>>)
    ensures Flatten(a + b) == Flatten(a) + Flatten(b)
  {
    if b == [] {
      assert a + b == a;
    } else {
      assert (a + b)[..|a + b| - 1] == a + b[..|b| - 1];
      FlattenAppend(a, b[..|b| - 1]);
    }
  }

  /** Each feed's article list, in configuration order. */
  function PerFeed(feeds: seq<FeedSource>, fetch: FeedSource -> FetchOutcome, extract: string -> string): (r: seq<seq<Article>>)
    ensures |r| == |feeds|
  {
    seq(|feeds|, i requires 0 <= i < |feeds| => FeedArticles(feeds[i], fetch, extract))
  }

  /** A feed contributes one article per fetched entry, each labelled with the feed's source and country. */
  lemma FeedArticlesOrigin(feed: FeedSource, fetch: FeedSource -> FetchOutcome, extract: string -> string)
    ensures |FeedArticles(feed, fetch, extract)| == |FetchFeed(fetch(feed))|
    ensures forall a :: a in FeedArticles(feed, fetch, extract) ==> a.source == feed.source && a.country == feed.country
  {
  }

  /** The list `main` builds: each feed's articles, feed after feed. */
  function Collected(feeds: seq<FeedSource>, fetch: FeedSource -> FetchOutcome, extract: string -> string): seq<Article>
  {
    Flatten(PerFeed(feeds, fetch, extract))
  }

  /** The loop of `main` that extends `all_articles` with the articles of every feed in turn. */
  method Aggregate(feeds: seq<FeedSource>, fetch: FeedSource -> FetchOutcome, extract: string -> string)
    returns (all: seq<Article>)
    ensures all == Collected(feeds, fetch, extract)
  {
    ghost var parts := PerFeed(feeds, fetch, extract);
    all := [];
    for i := 0 to |feeds|
      invariant all == Flatten(parts[..i])
    {
      var entries := FetchFeed(fetch(feeds[i]));
      var articles := ParseEntries(entries, feeds[i].source, feeds[i].country, extract);
      assert parts[..i + 1][..i] == parts[..i];
      all := all + articles;
    }
    assert parts[..|feeds|] == parts;
  }

  /** Collecting two runs of feeds one after the other concatenates their articles. */
  lemma CollectedAppend(a: seq<FeedSource>, b: seq<FeedSource>, fetch: FeedSource -> FetchOutcome, extract: string -> string)
    ensures Collected(a + b, fetch, extract) == Collected(a, fetch, extract) + Collected(b, fetch, extract)
  {
    var pa, pb, pab := PerFeed(a, fetch, extract), PerFeed(b, fetch, extract), PerFeed(a + b, fetch, extract);
    forall k | 0 <= k < |pab| ensures pab[k] == (pa + pb)[k] {
      if k < |a| {
        assert (a + b)[k] == a[k];
      } else {
        assert (a + b)[k] == b[k - |a|];
      }
    }
    assert pab == pa + pb;
    FlattenAppend(pa, pb);
  }

  /** The `i`-th list sits between the flattened lists before and after it. */
  lemma FlattenAt<T>(parts: seq<seq<T>>, i: int)
    requires 0 <= i < |parts|
    ensures Flatten(parts) == Flatten(parts[..i]) + parts[i] + Flatten(parts[i + 1..])
  {
    var front := parts[..i + 1];
    assert parts == front + parts[i + 1..];
    assert front[..|front| - 1] == parts[..i];
    assert Flatten(front) == Flatten(parts[..i]) + parts[i];
    FlattenAppend(front, parts[i + 1..]);
  }

  /** Collecting a slice of the feeds flattens the same slice of the per-feed lists. */
  lemma CollectedSlice(feeds: seq<FeedSource>, lo: int, hi: int, fetch: FeedSource -> FetchOutcome, extract: string -> string)
    requires 0 <= lo <= hi <= |feeds|
    ensures Collected(feeds[lo..hi], fetch, extract) == Flatten(PerFeed(feeds, fetch, extract)[lo..hi])
  {
    var p, q := PerFeed(feeds[lo..hi], fetch, extract), PerFeed(feeds, fetch, extract)[lo..hi];
    forall k | 0 <= k < hi - lo ensures p[k] == q[k] {
      assert feeds[lo..hi][k] == feeds[lo + k];
    }
    assert p == q;
  }

  /** Feed `i`'s articles sit between those of the earlier and the later feeds. */
  lemma FeedInPlace(feeds: seq<FeedSource>, i: int, fetch: FeedSource -> FetchOutcome, extract: string -> string)
    requires 0 <= i < |feeds|
    ensures Collected(feeds, fetch, extract)
         == Collected(feeds[..i], fetch, extract) + FeedArticles(feeds[i], fetch, extract) + Collected(feeds[i + 1..], fetch, extract)
  {
    var parts := PerFeed(feeds, fetch, extract);
    FlattenAt(parts, i);
    CollectedSlice(feeds, 0, i, fetch, extract);
    CollectedSlice(feeds, i + 1, |feeds|, fetch, extract);
    assert feeds[0..i] == feeds[..i] && parts[0..i] == parts[..i];
    assert feeds[i + 1..|feeds|] == feeds[i + 1..] && parts[i + 1..|feeds|] == parts[i + 1..];
  }

  /**
   * A feed whose fetch fails contributes no article, and the feeds after it
   * are still collected.
   */
  lemma FailedFeedContributesNothing(feeds: seq<FeedSource>, i: int, fetch: FeedSource -> FetchOutcome, extract: string -> string)
    requires 0 <= i < |feeds| && fetch(feeds[i]).FetchFailed?
    ensures Collected(feeds, fetch, extract) == Collected(feeds[..i], fetch, extract) + Collected(feeds[i + 1..], fetch, extract)
  {
    FeedInPlace(feeds, i, fetch, extract);
  }
}
