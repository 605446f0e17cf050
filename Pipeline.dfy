/**
 * One run of the scraper (`main`): collect the articles of every configured
 * feed, then hand the whole list to the three sinks.
 */
module Pipeline {
  import opened Entries
  import opened Aggregation
  import opened Dedup
  import opened Store

  /**
   * Returns the rows of the tabular file and the records of the document
   * file; the relational store is updated in place and persists across runs.
   */
  method RunPipeline(feeds: seq<FeedSource>, fetch: FeedSource -> FetchOutcome, extract: string -> string, db: ArticleStore)
    returns (csvRows: seq<Article>, jsonRecords: seq<Article>)
    requires db.Valid()
    modifies db
    ensures db.Valid() && db.tableExists
    ensures csvRows == KeepFirstByLink(Collected(feeds, fetch, extract))
    ensures jsonRecords == KeepLastByLink(Collected(feeds, fetch, extract))
    ensures db.rows == InsertAll(old(db.rows), Collected(feeds, fetch, extract))
  {
    var all := Aggregate(feeds, fetch, extract);
    csvRows := KeepFirstByLink(all);
    jsonRecords := KeepLastByLink(all);
    db.SaveToSqlite(all);
  }
}
