/** Grouping the collected articles by therapy area. */
module Grouping {
  import opened Classifier
  import opened Articles

  /** The articles a list gains from `a`: `a` itself when it matches `keywords`. */
  function Gain(a: Article, keywords: seq<string>): (r: seq<Article>) {
    if MatchesTherapyArea(a.text, keywords) then [a] else []
  }

  /** The articles whose text matches `keywords`, in their original order. */
  function Matching(articles: seq<Article>, keywords: seq<string>): (r: seq<Article>)
  {
    if articles == [] then []
    else Matching(articles[..|articles| - 1], keywords) + Gain(articles[|articles| - 1], keywords)
  }

  /** Classifying one more article extends the list by it exactly when it matches. */
  lemma MatchingStep(articles: seq<Article>, i: int, keywords: seq<string>)
    requires 0 <= i < |articles|
    ensures Matching(articles[..i + 1], keywords) == Matching(articles[..i], keywords) + Gain(articles[i], keywords)
  {
    assert articles[..i + 1][..i] == articles[..i];
  }

  /** The grouping loop: one list per configured area, seeded empty, then for
      every article and every area, the article is appended to that area's list
      when its text matches the area's keywords. */
  method Group(articles: seq<Article>, areas: map<string, seq<string>>)
    returns (grouped: map<string, seq<Article>>)
    ensures grouped.Keys == areas.Keys
    ensures forall area :: area in grouped ==> grouped[area] == Matching(articles, areas[area])
  {
    grouped := map area | area in areas :: [];
    GroupedByNone(articles, areas);
    var i := 0;
    while i < |articles|
      invariant 0 <= i <= |articles|
      invariant grouped == GroupedBy(articles[..i], areas)
    {
      ghost var previous := grouped;
      grouped := AddToMatchingAreas(grouped, articles[i], areas);
      GroupedByStep(articles, i, areas, previous, grouped);
      i := i + 1;
    }
    assert articles[..i] == articles;
    GroupedByMeaning(articles, areas);
  }

  /** What the grouping produces: every area mapped to the articles that match it. */
  function GroupedBy(articles: seq<Article>, areas: map<string, seq<string>>): (r: map<string, seq<Article>>) {
    map area | area in areas :: Matching(articles, areas[area])
  }

  /** Before any article is classified every area has an empty list. */
  lemma GroupedByNone(articles: seq<Article>, areas: map<string, seq<string>>)
    ensures GroupedBy(articles[..0], areas) == map area | area in areas :: []
  {
  }

  /** The grouping has a key for every area, and each list is that area's matching articles. */
  lemma GroupedByMeaning(articles: seq<Article>, areas: map<string, seq<string>>)
    ensures GroupedBy(articles, areas).Keys == areas.Keys
    ensures forall area :: area in areas ==> GroupedBy(articles, areas)[area] == Matching(articles, areas[area])
  {
  }

  /** Appending article `i` to the lists of the areas it matches turns the
      grouping of the first `i` articles into the grouping of the first `i + 1`. */
  lemma GroupedByStep(articles: seq<Article>, i: int, areas: map<string, seq<string>>,
                      previous: map<string, seq<Article>>, grouped: map<string, seq<Article>>)
    requires 0 <= i < |articles|
    requires previous == GroupedBy(articles[..i], areas)
    requires grouped.Keys == areas.Keys
    requires forall area :: area in grouped ==> grouped[area] == previous[area] + Gain(articles[i], areas[area])
    ensures grouped == GroupedBy(articles[..i + 1], areas)
  {
    forall area | area in grouped
      ensures grouped[area] == Matching(articles[..i + 1], areas[area])
    {
      MatchingStep(articles, i, areas[area]);
    }
  }

  /** The inner loop over the areas for one article: the article is appended to
      the list of every area it matches, and every other list is left as it was. */
  method AddToMatchingAreas(grouped: map<string, seq<Article>>, article: Article, areas: map<string, seq<string>>)
    returns (updated: map<string, seq<Article>>)
    requires grouped.Keys == areas.Keys
    ensures updated.Keys == areas.Keys
    ensures forall area :: area in updated ==> updated[area] == grouped[area] + Gain(article, areas[area])
  {
    updated := grouped;
    var pending := areas.Keys;
    while pending != {}
      invariant pending <= areas.Keys
      invariant updated.Keys == areas.Keys
      invariant forall area :: area in pending ==> updated[area] == grouped[area]
      invariant forall area :: area in areas && area !in pending ==>
        updated[area] == grouped[area] + Gain(article, areas[area])
      decreases |pending|
    {
      var area :| area in pending;
      if MatchesTherapyArea(article.text, areas[area]) {
        updated := updated[area := updated[area] + [article]];
      }
      pending := pending - {area};
    }
  }

  /** One fetch cycle: collect the articles of every source, then group them. */
  method FetchAndGroup(sources: seq<Source>, now: int, html: Html, areas: map<string, seq<string>>)
    returns (grouped: map<string, seq<Article>>)
    ensures grouped.Keys == areas.Keys
    ensures forall area :: area in grouped ==>
      grouped[area] == Matching(Collected(sources, now, html), areas[area])
  {
    var all := FetchAll(sources, now, html);
    grouped := Group(all, areas);
  }

  /** An article is in an area's list exactly when it is one of the articles
      and its text matches the area's keywords. */
  lemma {:induction false} MatchingMember(articles: seq<Article>, keywords: seq<string>, a: Article)
    ensures a in Matching(articles, keywords) <==> a in articles && MatchesTherapyArea(a.text, keywords)
    decreases |articles|
  {
    if articles != [] {
      var init := articles[..|articles| - 1];
      MatchingMember(init, keywords, a);
      assert articles == init + [articles[|articles| - 1]];
    }
  }

  /** `idx` picks out `xs` from `ys`: strictly increasing positions of `ys`
      holding the elements of `xs` in order. */
  predicate Embeds(idx: seq<int>, xs: seq<Article>, ys: seq<Article>) {
    && |idx| == |xs|
    && (forall k :: 0 <= k < |idx| ==> 0 <= idx[k] < |ys| && xs[k] == ys[idx[k]])
    && (forall k, l :: 0 <= k < l < |idx| ==> idx[k] < idx[l])
  }

  /** `xs` is `ys` with some elements left out and the rest in their order. */
  ghost predicate IsSubsequence(xs: seq<Article>, ys: seq<Article>) {
    exists idx :: Embeds(idx, xs, ys)
  }

  /** The positions in `articles` of the articles that match, in order. */
  lemma {:induction false} MatchingPositions(articles: seq<Article>, keywords: seq<string>)
    returns (idx: seq<int>)
    ensures Embeds(idx, Matching(articles, keywords), articles)
    decreases |articles|
  {
    if articles == [] {
      idx := [];
    } else {
      var n := |articles| - 1;
      var init := articles[..n];
      var prev := MatchingPositions(init, keywords);
      EmbedsExtend(prev, Matching(init, keywords), articles);
      if MatchesTherapyArea(articles[n].text, keywords) {
        idx := prev + [n];
      } else {
        idx := prev;
      }
    }
  }

  /** Positions picked out of all but the last element still pick out the same
      elements of the whole sequence, and the last position may be added. */
  lemma EmbedsExtend(idx: seq<int>, xs: seq<Article>, ys: seq<Article>)
    requires ys != [] && Embeds(idx, xs, ys[..|ys| - 1])
    ensures Embeds(idx, xs, ys)
    ensures Embeds(idx + [|ys| - 1], xs + [ys[|ys| - 1]], ys)
  {
    var n := |ys| - 1;
    forall k | 0 <= k < |idx| ensures idx[k] < n && xs[k] == ys[idx[k]] {
      assert ys[..n][idx[k]] == ys[idx[k]];
    }
  }

  /** Each area's list keeps the discovery order: it is a subsequence of the articles. */
  lemma MatchingIsSubsequence(articles: seq<Article>, keywords: seq<string>)
    ensures IsSubsequence(Matching(articles, keywords), articles)
  {
    var idx := MatchingPositions(articles, keywords);
  }

  /** Articles are classified one at a time: the list for a batch followed by
      another is the two lists one after the other. */
  lemma {:induction false} MatchingAppend(xs: seq<Article>, ys: seq<Article>, keywords: seq<string>)
    ensures Matching(xs + ys, keywords) == Matching(xs, keywords) + Matching(ys, keywords)
    decreases |ys|
  {
    if ys == [] {
      assert xs + ys == xs;
    } else {
      var n := |ys| - 1;
      assert (xs + ys)[..|xs + ys| - 1] == xs + ys[..n];
      assert (xs + ys)[|xs + ys| - 1] == ys[n];
      MatchingAppend(xs, ys[..n], keywords);
    }
  }

  /** An area with no keywords always gets an empty list. */
  lemma {:induction false} NoKeywordsNoArticles(articles: seq<Article>)
    ensures Matching(articles, []) == []
    decreases |articles|
  {
    if articles != [] {
      var a := articles[|articles| - 1];
      MatchesIffSomeKeyword(a.text, []);
      NoKeywordsNoArticles(articles[..|articles| - 1]);
    }
  }

  /** An article whose text matches the keywords of several areas is listed,
      unchanged, under each of them. */
  lemma FanOut(articles: seq<Article>, areas: map<string, seq<string>>, a: Article, area1: string, area2: string)
    requires a in articles
    requires area1 in areas && area2 in areas
    requires MatchesTherapyArea(a.text, areas[area1]) && MatchesTherapyArea(a.text, areas[area2])
    ensures a in Matching(articles, areas[area1]) && a in Matching(articles, areas[area2])
  {
    MatchingMember(articles, areas[area1], a);
    MatchingMember(articles, areas[area2], a);
  }

  /** An article whose title, or whose summary, matches an area's keywords is
      listed under that area: the searchable text contains both. */
  lemma TitleOrSummarySuffices(articles: seq<Article>, keywords: seq<string>, a: Article)
    requires a in articles && a.text == a.title + " " + a.summary
    requires MatchesTherapyArea(a.title, keywords) || MatchesTherapyArea(a.summary, keywords)
    ensures a in Matching(articles, keywords)
  {
    MatchesJoin(a.title, a.summary, keywords);
    MatchingMember(articles, keywords, a);
  }
}
