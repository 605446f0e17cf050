/**
 * The relational sink: a table `articles` whose primary key is `link`, filled
 * with `INSERT OR IGNORE`, so a row, once stored, is never overwritten.
 */
module Store {
  import opened Entries
  import opened Dedup

  /** The non-key columns of table `articles`. */
  datatype Row = Row(source: string, country: string, title: string, published: string, summary: string)

  function RowOf(a: Article): Row
  {
    Row(a.source, a.country, a.title, a.published, a.summary)
  }

  /** One `INSERT OR IGNORE`: the row goes in only when its key is absent. */
  function InsertOne(table: map<string, Row>, a: Article): (r: map<string, Row>)
    ensures forall l :: l in r <==> l in table || l == a.link
    ensures forall l :: l in table ==> r[l] == table[l]
    ensures a.link !in table ==> r[a.link] == RowOf(a)
  {
    if a.link in table then table else table[a.link := RowOf(a)]
  }

  /** The table after inserting every article of `data`, in order. */
  function InsertAll(table: map<string, Row>, data: seq<Article>): map<string, Row>
  {
    if data == [] then table else InsertOne(InsertAll(table, data[..|data| - 1]), data[|data| - 1])
  }

  /** Afterwards the keys are the old keys plus every input link, and no other. */
  lemma {:induction false} InsertAllKeys(table: map<string, Row>, data: seq<Article>)
    ensures forall l :: l in InsertAll(table, data) <==> l in table || HasLink(data, l)
  {
    if data != [] {
      InsertAllKeys(table, data[..|data| - 1]);
      forall l ensures l in InsertAll(table, data) <==> l in table || HasLink(data, l) {
        HasLinkSnoc(data, l);
      }
    }
  }

  /** Rows that were present are never overwritten. */
  lemma {:induction false} InsertAllKeepsExisting(table: map<string, Row>, data: seq<Article>)
    ensures forall l :: l in table ==> l in InsertAll(table, data) && InsertAll(table, data)[l] == table[l]
  {
    if data != [] {
      InsertAllKeepsExisting(table, data[..|data| - 1]);
    }
  }

  /** A key the table lacked ends up holding the first input article with that link. */
  lemma {:induction false} InsertAllNewRows(table: map<string, Row>, data: seq<Article>)
    ensures forall l :: l !in table && HasLink(data, l) ==>
      l in InsertAll(table, data) && InsertAll(table, data)[l] == RowOf(data[FirstIndex(data, l)])
  {
    InsertAllKeys(table, data);
    if data != [] {
      var p := data[..|data| - 1];
      InsertAllNewRows(table, p);
      InsertAllKeys(table, p);
      forall l | l !in table && HasLink(data, l) ensures InsertAll(table, data)[l] == RowOf(data[FirstIndex(data, l)]) {
        if HasLink(p, l) {
          var i := FirstIndex(p, l);
          assert data[i] == p[i];
        }
      }
    }
  }

  /**
   * Afterwards every input link is a key and no other key is added; rows that
   * were present are untouched, and a new key holds the first input article
   * with that link.
   */
  lemma {:induction false} InsertAllSpec(table: map<string, Row>, data: seq<Article>)
    ensures forall l :: l in InsertAll(table, data) <==> l in table || HasLink(data, l)
    ensures forall l :: l in table ==> InsertAll(table, data)[l] == table[l]
    ensures forall l :: l !in table && HasLink(data, l) ==> InsertAll(table, data)[l] == RowOf(data[FirstIndex(data, l)])
  {
    InsertAllKeys(table, data);
    InsertAllKeepsExisting(table, data);
    InsertAllNewRows(table, data);
  }

  /** Inserting articles whose links are all stored already changes nothing. */
  lemma {:induction false} InsertAllStored(table: map<string, Row>, data: seq<Article>)
    requires forall k :: 0 <= k < |data| ==> data[k].link in table
    ensures InsertAll(table, data) == table
  {
    if data != [] {
      InsertAllStored(table, data[..|data| - 1]);
    }
  }

  /**
   * Re-running the relational writer on the same articles leaves the table
   * exactly as the first run left it: same keys, same rows, same row count.
   */
  lemma InsertAllIdempotent(table: map<string, Row>, data: seq<Article>)
    ensures InsertAll(InsertAll(table, data), data) == InsertAll(table, data)
  {
    InsertAllSpec(table, data);
    var t := InsertAll(table, data);
    forall k | 0 <= k < |data| ensures data[k].link in t {
      assert HasLink(data, data[k].link);
    }
    InsertAllStored(t, data);
  }

  /**
   * Into an empty table the relational writer stores exactly the rows the
   * tabular writer keeps: the first article of each link.
   */
  lemma FreshTableHoldsFirstSeen(data: seq<Article>)
    ensures forall l :: l in InsertAll(map[], data) <==> HasLink(KeepFirstByLink(data), l)
    ensures forall a :: a in KeepFirstByLink(data) ==> a.link in InsertAll(map[], data) && InsertAll(map[], data)[a.link] == RowOf(a)
  {
    InsertAllSpec(map[], data);
    KeepFirstSpec(data);
    var r := KeepFirstByLink(data);
    forall a | a in r ensures a.link in InsertAll(map[], data) && InsertAll(map[], data)[a.link] == RowOf(a) {
      var k :| 0 <= k < |r| && r[k] == a;
      assert HasLink(data, a.link);
    }
  }

  /**
   * The database file: whether table `articles` exists yet, and its rows by
   * key. The rows persist from one run to the next.
   */
  class ArticleStore {
    var tableExists: bool
    var rows: map<string, Row>

    /** Without the table there are no rows. */
    ghost predicate Valid()
      reads this
    {
      tableExists || rows == map[]
    }

    /** A database file that does not exist yet. */
    constructor ()
      ensures Valid() && !tableExists && rows == map[]
    {
      tableExists := false;
      rows := map[];
    }

    /** `save_to_sqlite(data)`: `CREATE TABLE IF NOT EXISTS`, then one `INSERT OR IGNORE` per article. */
    method SaveToSqlite(data: seq<Article>)
      requires Valid()
      modifies this
      ensures Valid() && tableExists
      ensures rows == InsertAll(old(rows), data)
    {
      if !tableExists {
        tableExists := true;
        rows := map[];
      }
      for i := 0 to |data|
        invariant tableExists
        invariant rows == InsertAll(old(rows), data[..i])
      {
        assert data[..i + 1][..i] == data[..i];
        var item := data[i];
        if item.link !in rows {
          rows := rows[item.link := RowOf(item)];
        }
      }
      assert data[..|data|] == data;
    }
  }
}
