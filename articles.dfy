/** Building article records from the kept entries of every source. */
module Articles {
  import opened Wrappers
  import opened Feeds

  /** The dictionary appended to `all_articles`. */
  datatype Article = Article(
    title: string,
    link: string,
    published: string,
    summary: string,
    text: string,
    source: string)

  /** The HTML text extraction the fetch loop relies on, taken as given:
      `titleText` is `BeautifulSoup(..).get_text()` on a title and
      `cleanHtml` is `clean_html` on a summary. */
  datatype Html = Html(titleText: string -> string, cleanHtml: string -> string)

  /** A configured source: its name and the entries its feed parsed into. */
  datatype Source = Source(name: string, entries: seq<Entry>)

  /** Python's `a or b` on strings: `a` unless it is empty. */
  function OrElse(a: string, b: string): (r: string) {
    if a != [] then a else b
  }

  /** The raw summary: the summary attribute unless it is missing or empty,
      otherwise the description attribute, otherwise empty. */
  function RawSummary(e: Entry): (r: string) {
    OrElse(e.summary.GetOr(""), e.description.GetOr(""))
  }

  /** The record the fetch loop appends for entry `e` of source `source`. */
  function BuildArticle(e: Entry, source: string, html: Html): (a: Article)
    ensures a.text == a.title + " " + a.summary
    ensures a.source == source
    ensures a.title == html.titleText(e.title.GetOr(""))
    ensures a.summary == html.cleanHtml(RawSummary(e))
    ensures a.link == e.link.GetOr("")
    ensures a.published == OrElse(e.published.GetOr(""), e.updated.GetOr(""))
  {
    var title := html.titleText(e.title.GetOr(""));
    var summary := html.cleanHtml(RawSummary(e));
    Article(title, e.link.GetOr(""), OrElse(e.published.GetOr(""), e.updated.GetOr("")),
            summary, title + " " + summary, source)
  }

  /** The summary falls back to the description exactly when the summary
      attribute is missing or empty. */
  lemma SummaryFallback(e: Entry)
    ensures e.summary.Some? && e.summary.value != [] ==> RawSummary(e) == e.summary.value
    ensures (e.summary.None? || e.summary.value == []) && e.description.Some? ==>
      RawSummary(e) == e.description.value
    ensures (e.summary.None? || e.summary.value == []) && e.description.None? ==> RawSummary(e) == []
  {
  }

  /** The articles contributed by the entries of one source, in entry order. */
  function FromEntries(name: string, entries: seq<Entry>, now: int, html: Html): (r: seq<Article>)
  {
    if entries == [] then []
    else
      var e := entries[|entries| - 1];
      FromEntries(name, entries[..|entries| - 1], now, html)
        + (if KeptByLoop(e, now) then [BuildArticle(e, name, html)] else [])
  }

  /** The articles of all sources, source by source. */
  function Collected(sources: seq<Source>, now: int, html: Html): (r: seq<Article>)
  {
    if sources == [] then []
    else
      var s := sources[|sources| - 1];
      Collected(sources[..|sources| - 1], now, html) + FromEntries(s.name, s.entries, now, html)
  }

  /** The fetch loop: for every source and every entry, skip the undated and the
      stale, and append the record of every other entry. */
  method FetchAll(sources: seq<Source>, now: int, html: Html) returns (all: seq<Article>)
    ensures all == Collected(sources, now, html)
  {
    all := [];
    var i := 0;
    while i < |sources|
      invariant 0 <= i <= |sources|
      invariant all == Collected(sources[..i], now, html)
    {
      var source := sources[i];
      var j := 0;
      ghost var before := all;
      while j < |source.entries|
        invariant 0 <= j <= |source.entries|
        invariant all == before + FromEntries(source.name, source.entries[..j], now, html)
      {
        var entry := source.entries[j];
        assert source.entries[..j + 1][..j] == source.entries[..j];
        if !KeptByLoop(entry, now) {
          j := j + 1;
          continue;
        }
        all := all + [BuildArticle(entry, source.name, html)];
        j := j + 1;
      }
      assert source.entries[..j] == source.entries;
      assert sources[..i + 1][..i] == sources[..i];
      i := i + 1;
    }
    assert sources[..i] == sources;
  }

  /** Entry `j` of `entries` is kept and `a` is the record built from it. */
  ghost predicate BuiltAt(name: string, entries: seq<Entry>, now: int, html: Html, a: Article, j: int) {
    0 <= j < |entries| && KeptByLoop(entries[j], now) && a == BuildArticle(entries[j], name, html)
  }

  /** Entry `j` of source `i` is kept and `a` is the record built from it. */
  ghost predicate ProducedBy(sources: seq<Source>, now: int, html: Html, a: Article, i: int, j: int) {
    0 <= i < |sources| && BuiltAt(sources[i].name, sources[i].entries, now, html, a, j)
  }

  /** Some kept entry of some source yields `a`. */
  ghost predicate Produced(sources: seq<Source>, now: int, html: Html, a: Article) {
    exists i, j :: ProducedBy(sources, now, html, a, i, j)
  }

  /** A record comes from a source's entries exactly when some kept entry builds it. */
  lemma {:induction false} FromEntriesMember(name: string, entries: seq<Entry>, now: int, html: Html, a: Article)
    ensures a in FromEntries(name, entries, now, html) <==> exists j :: BuiltAt(name, entries, now, html, a, j)
    decreases |entries|
  {
    if entries != [] {
      var n := |entries| - 1;
      var init := entries[..n];
      FromEntriesMember(name, init, now, html, a);
      if a in FromEntries(name, init, now, html) {
        var j :| BuiltAt(name, init, now, html, a, j);
        assert BuiltAt(name, entries, now, html, a, j);
      }
      if a !in FromEntries(name, init, now, html) && a in FromEntries(name, entries, now, html) {
        assert BuiltAt(name, entries, now, html, a, n);
      }
      if exists j :: BuiltAt(name, entries, now, html, a, j) {
        var j :| BuiltAt(name, entries, now, html, a, j);
        if j < n {
          assert BuiltAt(name, init, now, html, a, j);
        }
      }
    }
  }

  /** An article is collected exactly when some kept entry of some source builds it. */
  lemma {:induction false} CollectedMember(sources: seq<Source>, now: int, html: Html, a: Article)
    ensures a in Collected(sources, now, html) <==> Produced(sources, now, html, a)
    decreases |sources|
  {
    if sources != [] {
      var n := |sources| - 1;
      var init := sources[..n];
      var s := sources[n];
      CollectedMember(init, now, html, a);
      FromEntriesMember(s.name, s.entries, now, html, a);
      if a in Collected(init, now, html) {
        var i, j :| ProducedBy(init, now, html, a, i, j);
        assert ProducedBy(sources, now, html, a, i, j);
      }
      if a in FromEntries(s.name, s.entries, now, html) {
        var j :| BuiltAt(s.name, s.entries, now, html, a, j);
        assert ProducedBy(sources, now, html, a, n, j);
      }
      if Produced(sources, now, html, a) {
        var i, j :| ProducedBy(sources, now, html, a, i, j);
        if i < n {
          assert ProducedBy(init, now, html, a, i, j);
        }
      }
    }
  }

  /** Every collected article comes from a kept entry, so its text is its title
      and summary joined by one space, and it names its source. */
  lemma CollectedArticleShape(sources: seq<Source>, now: int, html: Html, a: Article)
    requires a in Collected(sources, now, html)
    ensures a.text == a.title + " " + a.summary
    ensures exists i :: 0 <= i < |sources| && a.source == sources[i].name
  {
    CollectedMember(sources, now, html, a);
    var i, j :| ProducedBy(sources, now, html, a, i, j);
  }

  /** Sources are processed independently: the articles of a concatenation of
      source lists are those of each list, in order. */
  lemma {:induction false} CollectedAppend(xs: seq<Source>, ys: seq<Source>, now: int, html: Html)
    ensures Collected(xs + ys, now, html) == Collected(xs, now, html) + Collected(ys, now, html)
    decreases |ys|
  {
    if ys == [] {
      assert xs + ys == xs;
    } else {
      var n := |ys| - 1;
      assert (xs + ys)[..|xs + ys| - 1] == xs + ys[..n];
      assert (xs + ys)[|xs + ys| - 1] == ys[n];
      CollectedAppend(xs, ys[..n], now, html);
    }
  }

  /** A source whose feed failed to parse into any entry contributes nothing and
      leaves the articles of the other sources as they were. */
  lemma EmptySourceContributesNothing(xs: seq<Source>, name: string, ys: seq<Source>, now: int, html: Html)
    ensures Collected(xs + [Source(name, [])] + ys, now, html) == Collected(xs + ys, now, html)
  {
    CollectedAppend(xs + [Source(name, [])], ys, now, html);
    CollectedAppend(xs, [Source(name, [])], now, html);
    CollectedAppend(xs, ys, now, html);
    assert [Source(name, [])][..0] == [];
  }

  /** The number of entries over all sources. */
  function EntryCount(sources: seq<Source>): (r: nat) {
    if sources == [] then 0 else EntryCount(sources[..|sources| - 1]) + |sources[|sources| - 1].entries|
  }

  /** A source yields at most one article per entry. */
  lemma {:induction false} FromEntriesLength(name: string, entries: seq<Entry>, now: int, html: Html)
    ensures |FromEntries(name, entries, now, html)| <= |entries|
    decreases |entries|
  {
    if entries != [] {
      FromEntriesLength(name, entries[..|entries| - 1], now, html);
    }
  }

  /** The fetch loop yields at most one article per entry. */
  lemma {:induction false} CollectedLength(sources: seq<Source>, now: int, html: Html)
    ensures |Collected(sources, now, html)| <= EntryCount(sources)
    decreases |sources|
  {
    if sources != [] {
      var s := sources[|sources| - 1];
      CollectedLength(sources[..|sources| - 1], now, html);
      FromEntriesLength(s.name, s.entries, now, html);
    }
  }
}
