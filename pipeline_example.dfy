/**
 * One fetch cycle end to end: a single source with one entry dated `now`,
 * titled "New Oncology Drug Approved" with summary "cancer treatment
 * breakthrough", grouped against the areas Oncology (keyword "cancer") and
 * Cardiology (keyword "heart"). Each lemma takes its texts as parameters fixed
 * by its precondition.
 */
module PipelineExample {
  import opened Wrappers
  import opened Text
  import opened Classifier
  import opened Feeds
  import opened Articles
  import opened Grouping

  lemma KeywordIsToken(k: string)
    requires k == "cancer" || k == "heart"
    ensures Normalize(k) == k && IsToken(k)
  {
    assert IsNormal(k);
    NormalizeOfNormal(k);
  }

  /** The lower-cased title and the summary are words and spaces only, so
      they normalise to themselves. */
  lemma NormalNewsText(text: string)
    requires text == "new oncology drug approved" || text == "cancer treatment breakthrough"
    ensures Normalize(text) == text
  {
    if text == "new oncology drug approved" {
      assert IsNormal(text);
    } else {
      assert IsNormal(text);
    }
    NormalizeOfNormal(text);
  }

  lemma CancerOpensSummary(summary: string)
    requires summary == "cancer treatment breakthrough"
    ensures IsWholeWord("cancer", summary)
  {
    assert summary[..6] == "cancer";
    assert WholeWordAt("cancer", summary, 0);
  }

  /** The summary alone matches the Oncology keywords. */
  lemma SummaryMatchesOncology(summary: string)
    requires summary == "cancer treatment breakthrough"
    ensures MatchesTherapyArea(summary, ["cancer"])
  {
    KeywordIsToken("cancer");
    NormalNewsText(summary);
    CancerOpensSummary(summary);
    SingleTokenMatchesWholeWord(summary, "cancer");
    MatchesIffSomeKeyword(summary, ["cancer"]);
  }

  /** Lower-casing the title leaves nothing else to delete. */
  lemma TitleNormalForm(title: string, clean: string)
    requires title == "New Oncology Drug Approved" && clean == "new oncology drug approved"
    ensures Normalize(title) == clean
  {
    NormalizeIgnoresCase(title, clean);
    NormalNewsText(clean);
  }

  /** No "h" of the text is followed by an "e", so "heart" is nowhere in it. */
  lemma NoHeartIn(s: string)
    requires s == "new oncology drug approved" || s == "cancer treatment breakthrough"
    ensures !IsSubstring("heart", s)
  {
    forall i | 0 <= i < |s| - 1 ensures s[i] != 'h' || s[i + 1] != 'e' {
    }
    forall i | 0 <= i <= |s| - 5 ensures !OccursAt(s, "heart", i) {
      assert s[i..i + 5][0] == s[i] && s[i..i + 5][1] == s[i + 1];
    }
  }

  /** The article's text does not match the Cardiology keywords. */
  lemma TextMissesCardiology(title: string, summary: string)
    requires title == "New Oncology Drug Approved" && summary == "cancer treatment breakthrough"
    ensures !MatchesTherapyArea(title + " " + summary, ["heart"])
  {
    var cleanTitle := "new oncology drug approved";
    TitleNormalForm(title, cleanTitle);
    NormalNewsText(summary);
    NormalizeJoin(title, summary);
    SplitJoin(cleanTitle, summary);
    KeywordIsToken("heart");
    NoHeartIn(cleanTitle);
    NoHeartIn(summary);
    AbsentTokenNotSplit("heart", cleanTitle);
    AbsentTokenNotSplit("heart", summary);
    SingleTokenMatchesWholeWord(title + " " + summary, "heart");
    SplitMemberIff("heart", Normalize(title + " " + summary));
    MatchesIffSomeKeyword(title + " " + summary, ["heart"]);
  }

  /** The fetch loop keeps the entry and builds its article from the title and summary. */
  lemma CollectsTheEntry(sources: seq<Source>, e: Entry, now: int, html: Html, title: string, summary: string)
    requires e == Entry(Some(title), Some(summary), None, None, None, None, Parsed(now), Absent)
    requires html.titleText(title) == title && html.cleanHtml(summary) == summary
    requires sources == [Source("Pharma Times", [e])]
    ensures Collected(sources, now, html) == [Article(title, "", "", summary, title + " " + summary, "Pharma Times")]
  {
    assert KeptByLoop(e, now);
    var a := BuildArticle(e, "Pharma Times", html);
    assert FromEntries("Pharma Times", [e][..0], now, html) == [];
    assert FromEntries("Pharma Times", [e], now, html) == [a];
    assert Collected(sources[..0], now, html) == [];
  }

  /** The article lands under Oncology, through its summary, and Cardiology stays empty. */
  lemma EndToEnd(sources: seq<Source>, e: Entry, now: int, html: Html, title: string, summary: string)
    requires title == "New Oncology Drug Approved" && summary == "cancer treatment breakthrough"
    requires e == Entry(Some(title), Some(summary), None, None, None, None, Parsed(now), Absent)
    requires html.titleText(title) == title && html.cleanHtml(summary) == summary
    requires sources == [Source("Pharma Times", [e])]
    ensures var all := Collected(sources, now, html);
      && |all| == 1
      && Matching(all, ["cancer"]) == all
      && Matching(all, ["heart"]) == []
  {
    CollectsTheEntry(sources, e, now, html, title, summary);
    var a := Article(title, "", "", summary, title + " " + summary, "Pharma Times");
    SummaryMatchesOncology(summary);
    MatchesJoin(title, summary, ["cancer"]);
    TextMissesCardiology(title, summary);
    assert [a][..0] == [];
  }

  /** The same cycle run through the fetch loop and the grouping loop. */
  method EndToEndCycle(now: int, html: Html, title: string, summary: string)
    returns (grouped: map<string, seq<Article>>)
    requires title == "New Oncology Drug Approved" && summary == "cancer treatment breakthrough"
    requires html.titleText(title) == title && html.cleanHtml(summary) == summary
    ensures grouped.Keys == {"Oncology", "Cardiology"}
    ensures grouped["Oncology"] == [Article(title, "", "", summary, title + " " + summary, "Pharma Times")]
    ensures grouped["Cardiology"] == []
  {
    var e := Entry(Some(title), Some(summary), None, None, None, None, Parsed(now), Absent);
    var sources := [Source("Pharma Times", [e])];
    var areas := map["Oncology" := ["cancer"], "Cardiology" := ["heart"]];
    grouped := FetchAndGroup(sources, now, html, areas);
    EndToEnd(sources, e, now, html, title, summary);
    CollectsTheEntry(sources, e, now, html, title, summary);
    assert areas["Oncology"] == ["cancer"] && areas["Cardiology"] == ["heart"];
  }
}
