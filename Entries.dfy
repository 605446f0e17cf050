/**
 * The entry normaliser: one parsed feed entry becomes one Article record
 * (`parse_entries` in main.py).
 */
module Entries {
  import opened Wrappers
  import opened Text
  import opened Timestamp

  /** The record every sink stores. `link` is its natural key. */
  datatype Article = Article(source: string, country: string, title: string, link: string, published: string, summary: string)

  /**
   * A parsed feed entry: its text fields by key (any of them may be absent),
   * and the structured `published_parsed` time tuple. `None` covers both an
   * absent attribute and an explicit `None`: either makes the conversion raise.
   */
  datatype RawEntry = RawEntry(fields: map<string, string>, publishedParsed: Option<seq<int>>)

  /** `entry.get(key, default)`. */
  function Get(e: RawEntry, key: string, default: string): string
  {
    if key in e.fields then e.fields[key] else default
  }

  /** The text timestamp kept when the structured one cannot be converted. */
  function FallbackPublished(e: RawEntry): (r: string)
    ensures Stripped(r)
  {
    Trim(Get(e, "published", Get(e, "updated", "")))
  }

  /**
   * The `published` field after the `try`: the ISO rendering of the structured
   * time when `datetime(*published_parsed[:6])` succeeds, the text fallback
   * when anything in it raises.
   */
  function PublishedOf(e: RawEntry): (r: string)
    ensures Stripped(r)
    ensures r == FallbackPublished(e) || (|r| == 19 && IsDigit(r[0]) && IsDigit(r[18]))
  {
    match e.publishedParsed
    case Some(t) =>
      (match FromParsed(t)
       case Some(d) => FormatIso(d)
       case None => FallbackPublished(e))
    case None => FallbackPublished(e)
  }

  /**
   * The body of the loop in `parse_entries`. `extract` stands for
   * `BeautifulSoup(..., 'html.parser').get_text()`, an external library.
   */
  function Normalize(e: RawEntry, source: string, country: string, extract: string -> string): (a: Article)
    ensures a.source == source && a.country == country
    ensures Stripped(a.title) && Stripped(a.link) && Stripped(a.published) && Stripped(a.summary)
  {
    Article(source, country, Trim(Get(e, "title", "")), Trim(Get(e, "link", "")), PublishedOf(e),
            Trim(extract(Get(e, "summary", ""))))
  }

  /** The articles of one feed: one per entry, in entry order. */
  function NormalizeFeed(entries: seq<RawEntry>, source: string, country: string, extract: string -> string): (r: seq<Article>)
    ensures |r| == |entries|
  {
    seq(|entries|, i requires 0 <= i < |entries| => Normalize(entries[i], source, country, extract))
  }

  /** `parse_entries(feed, source, country)`: the loop that appends one article per entry. */
  method ParseEntries(entries: seq<RawEntry>, source: string, country: string, extract: string -> string)
    returns (articles: seq<Article>)
    ensures articles == NormalizeFeed(entries, source, country, extract)
    ensures forall k :: 0 <= k < |articles| ==> articles[k].source == source && articles[k].country == country
  {
    articles := [];
    for i := 0 to |entries|
      invariant |articles| == i
      invariant forall k :: 0 <= k < i ==> articles[k] == Normalize(entries[k], source, country, extract)
    {
      articles := articles + [Normalize(entries[i], source, country, extract)];
    }
  }

  /**
   * `title` and `link` are the entry's values with surrounding whitespace cut
   * off, or empty when the key is absent.
   */
  lemma TitleAndLinkTrimmed(e: RawEntry, source: string, country: string, extract: string -> string)
    ensures var a := Normalize(e, source, country, extract);
      && ("title" !in e.fields ==> a.title == "")
      && ("title" in e.fields ==> StripsTo(e.fields["title"], |e.fields["title"]| - |TrimStart(e.fields["title"])|, a.title))
      && ("link" !in e.fields ==> a.link == "")
      && ("link" in e.fields ==> StripsTo(e.fields["link"], |e.fields["link"]| - |TrimStart(e.fields["link"])|, a.link))
  {
    var a := Normalize(e, source, country, extract);
    TrimSpec(Get(e, "title", ""));
    TrimSpec(Get(e, "link", ""));
  }

  /**
   * `summary` is the text extracted from the entry's `summary` markup, or from
   * the empty string when the key is absent, with surrounding whitespace cut off.
   */
  lemma SummaryExtracted(e: RawEntry, source: string, country: string, extract: string -> string)
    ensures var a := Normalize(e, source, country, extract);
      var text := extract(if "summary" in e.fields then e.fields["summary"] else "");
      && a.summary == Trim(text)
      && StripsTo(text, |text| - |TrimStart(text)|, a.summary)
  {
    var text := extract(Get(e, "summary", ""));
    TrimSpec(text);
    assert Normalize(e, source, country, extract).summary == Trim(text);
  }

  /**
   * Without a convertible structured time, `published` is the trimmed
   * `published` text, else the trimmed `updated` text, else empty.
   */
  lemma PublishedFallback(e: RawEntry, source: string, country: string, extract: string -> string)
    requires e.publishedParsed.None? || FromParsed(e.publishedParsed.value).None?
    ensures var a := Normalize(e, source, country, extract);
      && ("published" in e.fields ==> a.published == Trim(e.fields["published"]))
      && ("published" !in e.fields && "updated" in e.fields ==> a.published == Trim(e.fields["updated"]))
      && ("published" !in e.fields && "updated" !in e.fields ==> a.published == "")
  {
    assert Trim("") == "";
  }

  /**
   * With a structured time that forms a valid date-time, `published` is its
   * `YYYY-MM-DDTHH:MM:SS` rendering and reads back as that date-time,
   * whatever the text fields hold.
   */
  lemma PublishedFromStructuredTime(e: RawEntry, source: string, country: string, extract: string -> string)
    requires e.publishedParsed.Some? && FromParsed(e.publishedParsed.value).Some?
    ensures var a := Normalize(e, source, country, extract);
      && |a.published| == 19
      && ParseIso(a.published) == FromParsed(e.publishedParsed.value)
  {
    IsoRoundTrip(FromParsed(e.publishedParsed.value).value);
  }

  /** Worked example: a valid structured time replaces the text timestamp. */
  lemma ValidTimeExample(extract: string -> string)
    ensures Normalize(RawEntry(map["published" := " Fri, 15 Mar 2024 "], Some([2024, 3, 15, 9, 30, 0, 4, 75, 0])),
                      "BBC News", "UK", extract).published == "2024-03-15T09:30:00"
  {
    var iso := FromParsed([2024, 3, 15, 9, 30, 0, 4, 75, 0]);
    assert iso == Some(DateTime(2024, 3, 15, 9, 30, 0));
    assert FormatIso(iso.value) == "2024-03-15T09:30:00" by {
      assert Pad4(2024) == "2024";
      assert Pad2(3) == "03" && Pad2(15) == "15" && Pad2(9) == "09" && Pad2(30) == "30" && Pad2(0) == "00";
    }
    var e := RawEntry(map["published" := " Fri, 15 Mar 2024 "], Some([2024, 3, 15, 9, 30, 0, 4, 75, 0]));
    assert PublishedOf(e) == FormatIso(iso.value);
  }

  /** Worked examples: month 13 and 30 February keep the text fallback. */
  lemma InvalidTimeExamples(extract: string -> string)
    ensures Normalize(RawEntry(map["updated" := "yesterday"], Some([2024, 13, 1, 0, 0, 0])),
                      "CNN", "USA", extract).published == "yesterday"
    ensures Normalize(RawEntry(map[], Some([2023, 2, 30, 12, 0, 0])),
                      "NHK", "Japan", extract).published == ""
  {
    assert FromParsed([2024, 13, 1, 0, 0, 0]).None?;
    assert FromParsed([2023, 2, 30, 12, 0, 0]).None? by {
      assert !IsLeapYear(2023);
    }
    assert Trim("yesterday") == "yesterday" by {
      assert !IsSpace('y');
      TrimOfStripped("yesterday");
    }
    assert Trim("") == "";
  }
}
