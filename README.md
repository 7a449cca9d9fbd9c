# Pharma news dashboard: classification core

This project is a Dafny model of the decision logic of the pharma news dashboard (`app.py`). One fetch cycle does three things:

- It reads the entries of every configured RSS source. It drops entries that have no date or are older than seven days, and builds an article record (title, link, published string, summary, searchable text, source) from each remaining entry.
- It classifies each article against every therapy area. An area is a name with a list of keywords, and `matches_therapy_area` decides whether the article's text matches that list.
- It groups the articles into one list per therapy area.

The model covers four parts of that cycle:

- **Text normalisation.** This is `re.sub(r"[^\w\s]", "", s.lower())` at app.py:45 and app.py:49, modelled by `Text.Normalize`. `str.split()` (app.py:46) is `Text.Split`, and Python's string `in` (app.py:54) is `Text.Contains` (module `Text`).
- **The classifier.** This is `matches_therapy_area`. A keyword that normalises to several tokens is looked for as a contiguous substring of the normalised text. Any other keyword is compared, whole, with the text's whitespace tokens (module `Classifier`). `matches_therapy_area` (app.py:43-61) is `Classifier.MatchesTherapyArea`; its keyword loop with the early return is `Classifier.AnyKeywordHits` (app.py:48-61), and the test on one keyword is `Classifier.KeywordHit` (app.py:49-59). Worked cases are in module `ClassifierExamples`.
- **The recency rule.** This covers both the fetch loop's date test and the helper `article_in_last_30_days` (module `Feeds`). The loop's date test (app.py:104-110) is `Feeds.KeptByLoop`, with the date it picks given by `Feeds.LoopDate` (app.py:104-106). `article_in_last_30_days` (app.py:27-39) is `Feeds.ArticleInLast30Days`, with the date it picks given by `Feeds.HelperDate` (app.py:29-39).
- **The pipeline's two loops.** The fetch loop builds `all_articles` (method `Articles.FetchAll`). The grouping loop fills a dictionary of lists (method `Grouping.Group`, with its inner loop `Grouping.AddToMatchingAreas`). Both methods are proved equal to functional specifications (`Articles.Collected`, `Grouping.Matching`), and the properties are proved about those specifications. `Articles.FromEntries` (app.py:102-129) is the list one source contributes, `Articles.BuildArticle` (app.py:113-129) the record built from one entry, and `Articles.RawSummary` (app.py:116) the summary-or-description fallback.

Module `PipelineExample` works through one fetch-and-group cycle on one concrete source and proves where its article ends up.

Two points where the code behaves differently from what a reader might expect. The model follows the code in both:

- **Date fallback.** The fetch loop falls back from the published date to the updated one on truthiness (`getattr(...) or getattr(...)`), not on presence, so a published date that is present but `None` also falls back. The helper `article_in_last_30_days` chooses by presence (`hasattr`) instead: a chosen date set to `None` makes `time.mktime` raise, and the helper answers False. `Feeds.HelperAgreesWithLoop` and `Feeds.HelperDiffersOnNone` pin down where the two rules agree and where they differ.
- **Clock reads.** The code calls `datetime.now()` again for every entry. The model takes one `now` per cycle (see Left out).

The helper's name says thirty days, but it applies the same seven-day window as the loop (`Feeds.HelperWindowIsSevenDays`). The page header and the empty-list message also say seven days.

A consequence of the code that the model proves rather than corrects: the single-token branch compares the *whole* normalised keyword with the tokens. So a keyword whose normalised form is one token with whitespace around it (`"ms "`, or `"ms -"`, which normalises to `"ms "`) never matches anything (`Classifier.PaddedSingleTokenNeverMatches`).

## Model

| member | source | states |
|---|---|---|
| Text.Lower | app.py:45 | `lower()` maps A–Z to a–z (code point + 32) and leaves every other character alone; the result is never an upper-case letter |
| Text.Normalize | app.py:45 | the normalised text is never longer than the input |
| Text.NormalizeIsNormal | app.py:45 | the normalised text holds only lower-case word characters and whitespace |
| Text.NormalizeConcat | app.py:45 | normalising works character by character: it distributes over concatenation |
| Text.NormalizeOfNormal | app.py:45 | a text of lower-case word characters and whitespace normalises to itself |
| Text.NormalizeIdempotent | app.py:45 | normalising twice is the same as normalising once |
| Text.NormalizeIgnoresCase | app.py:45 | texts that agree character for character after `lower()` normalise identically |
| Text.NormalizeDeletes | app.py:49 | a character that is neither a word character nor whitespace is deleted with nothing in its place; the text on both sides closes up |
| Text.CovidExample | app.py:45 | "COVID-19 Trial" and "covid19 trial" normalise identically |
| Text.TokenLength | app.py:46 | the length of the leading run of non-whitespace: every character before it is non-whitespace, and whitespace or the end follows it |
| Text.SplitTokens | app.py:46 | every token `split()` yields is non-empty and contains no whitespace |
| Text.SplitEmptyIff | app.py:50 | `split()` yields no token exactly when the text is empty or all whitespace |
| Text.SplitMemberIff | app.py:58 | a token is among the text's split tokens exactly when it occurs in the text as a whole word, bounded by whitespace or the ends |
| Text.SplitMemberIsWholeWord | app.py:46 | each split token occurs in the text as a whole word |
| Text.WholeWordIsSplitMember | app.py:46 | each whole-word occurrence of a token is one of the split tokens |
| Text.SplitJoinSpaced | app.py:46 | splitting tokens joined by single spaces gives those tokens back |
| Text.JoinSpacedIsNormal | app.py:45 | normal tokens joined by single spaces form a normal text |
| Text.JoinSpacedNormalizeSplit | app.py:45-46 | normal tokens joined by single spaces normalise to themselves and split back into those tokens |
| Text.ContainsIff | app.py:54 | string `in` holds exactly when the pattern occurs at some position of the text as a contiguous run; the empty pattern is in every text |
| Text.WholeWordIsContained | app.py:54 | a whole-word occurrence is in particular a substring occurrence |
| Text.NormalizeJoin | app.py:120 | normalising `a + " " + b` gives the normal forms of `a` and `b` joined by a space |
| Text.SubstringOfJoin | app.py:120 | a substring of either side of a space-joined text is a substring of the whole |
| Text.WholeWordOfJoin | app.py:120 | a whole word of either side of a space-joined text is a whole word of the whole |
| Text.SplitJoin | app.py:120 | the tokens of `a + " " + b` are the tokens of `a` followed by the tokens of `b` |
| Text.AbsentTokenNotSplit | app.py:58 | a token that does not occur in a text as a substring is not one of its split tokens |
| Classifier.AnyKeywordHitsIff | app.py:48-61 | the keyword loop with early return answers true exactly when some keyword of the list hits |
| Classifier.MatchesIffSomeKeyword | app.py:43-61 | the text matches a keyword list exactly when at least one keyword matches; an empty list never matches |
| Classifier.MatchesIgnoresOrder | app.py:48-61 | the answer depends only on which keywords are listed, not on their order or repetition |
| Classifier.NoTokenKeywordNeverMatches | app.py:49-50 | a keyword that normalises to no token (empty, all punctuation or all whitespace) never matches |
| Classifier.SingleTokenMatchesWholeWord | app.py:56-59 | a keyword that normalises to one bare token matches exactly when that token is a whole word of the normalised text |
| Classifier.PaddedSingleTokenNeverMatches | app.py:49-59 | a keyword that normalises to one token plus surrounding whitespace never matches |
| Classifier.PhraseMatchesSubstring | app.py:53-55 | a keyword that normalises to two or more tokens matches exactly when its normalised form is a contiguous substring of the normalised text |
| Classifier.KeywordMatchesJoin | app.py:120 | a keyword matching either the title or the summary matches the text joined from them |
| Classifier.MatchesJoin | app.py:120 | a keyword list matching either the title or the summary matches the text joined from them |
| ClassifierExamples.MsIsToken | app.py:49-50 | "ms" normalises to itself and splits into the one token "ms" |
| ClassifierExamples.WholeWordExample | app.py:56-59 | "ms" matches "ms treatment options" |
| ClassifierExamples.NotInsideWordExample | app.py:56-59 | "ms" does not match "cramps are common" |
| ClassifierExamples.SubstringIsNotWordExample | app.py:56-59 | "ms" does not match "symptoms persist", although "ms" is a substring of that text |
| ClassifierExamples.MultipleSclerosisIsPhrase | app.py:49-53 | "multiple sclerosis" normalises to itself and is a two-token phrase |
| ClassifierExamples.PhraseExample | app.py:53-55 | "multiple sclerosis" matches "multiple sclerosis update" |
| ClassifierExamples.PhraseAtStart | app.py:54 | "multiple sclerosis" is a substring of "multiple sclerosis update" |
| ClassifierExamples.ScatteredPhraseExample | app.py:53-55 | "multiple sclerosis" does not match "multiple reports of sclerosis" |
| ClassifierExamples.ScatteredPhraseAbsent | app.py:54 | "multiple sclerosis" is not a substring of "multiple reports of sclerosis" |
| ClassifierExamples.PartialWordPhraseExample | app.py:53-55 | the phrase "ple scler" matches "multiple sclerosis": no word boundary is required |
| ClassifierExamples.PartialWordOccurs | app.py:54 | "ple scler" is a substring of "multiple sclerosis" |
| ClassifierExamples.PartialWordSplit | app.py:49-50 | "ple scler" normalises to itself and has two tokens |
| ClassifierExamples.PhraseWhitespaceExample | app.py:53-55 | "multiple sclerosis" does not match "multiple  sclerosis" (two spaces): whitespace is not collapsed |
| ClassifierExamples.NormalPhraseText | app.py:45 | the phrase example texts, already lower-case words and spaces, normalise to themselves |
| ClassifierExamples.DoubleSpacedPhraseAbsent | app.py:54 | "multiple sclerosis" is not a substring of "multiple  sclerosis" |
| ClassifierExamples.DegenerateKeywordExample | app.py:49-59 | the keywords "", "--" and "ms -" match no text |
| Feeds.LoopDateFallsBack | app.py:104-106 | the loop uses the published date when there is one, and the updated date exactly when the published one is missing or `None`; it has no date exactly when neither holds one |
| Feeds.KeptByLoopIff | app.py:104-110 | the loop keeps an entry exactly when its resolved date `t` satisfies `now - t <= 7 days` |
| Feeds.UndatedDropped | app.py:105-106 | an entry with neither date is dropped, by the loop and by the helper |
| Feeds.BoundaryAndFutureKept | app.py:109-110 | the seven-day boundary is inclusive and future dates are kept |
| Feeds.KeptMonotone | app.py:109 | an entry kept at some clock reading is kept at every earlier reading |
| Feeds.HelperImpliesLoop | app.py:27-39 | whatever `article_in_last_30_days` accepts, the fetch loop accepts |
| Feeds.HelperAgreesWithLoop | app.py:27-39 | when neither date attribute is set to `None`, the helper and the loop agree |
| Feeds.HelperDiffersOnNone | app.py:29-38 | a published date present but `None`: the loop falls back to the updated date and keeps the entry, while the helper raises and answers False |
| Feeds.HelperWindowIsSevenDays | app.py:37 | the helper rejects an entry eight days old: its window is seven days, not thirty |
| Articles.BuildArticle | app.py:113-129 | the record's text is its title and summary joined by one space; the title is the extracted title text; the summary is the cleaned raw summary; the link defaults to ""; the published string falls back to the updated string; the record names its source |
| Articles.SummaryFallback | app.py:116 | the raw summary is the summary attribute unless it is missing or empty, then the description attribute, then "" |
| Articles.FetchAll | app.py:97-129 | the fetch loop returns exactly the records built from the kept entries, source by source and entry by entry |
| Articles.FromEntriesMember | app.py:102-129 | a record comes from a source's entries exactly when some kept entry builds it |
| Articles.CollectedMember | app.py:99-129 | an article is collected exactly when some kept entry of some source builds it |
| Articles.CollectedArticleShape | app.py:120-128 | every collected article's text is its title and summary joined by a space, and it names one of the sources |
| Articles.CollectedAppend | app.py:99-102 | sources are processed independently: the articles of two source lists in a row are those of each list, in order |
| Articles.EmptySourceContributesNothing | app.py:99-102 | a source whose feed yields no entries adds nothing and leaves the other sources' articles unchanged |
| Articles.FromEntriesLength | app.py:102-129 | a source yields at most one article per entry |
| Articles.CollectedLength | app.py:99-129 | the fetch loop yields at most one article per entry |
| Grouping.MatchingStep | app.py:147-150 | classifying one more article extends an area's list by that article exactly when it matches |
| Grouping.Group | app.py:145-150 | every configured area is a key, even with no articles, and each area's list is the articles matching its keywords, in their original order |
| Grouping.AddToMatchingAreas | app.py:148-150 | one article is appended to the list of every area it matches, and every other list is left as it was |
| Grouping.GroupedByNone | app.py:145 | before any article is classified, every area has an empty list |
| Grouping.GroupedByStep | app.py:147-150 | appending one article to the lists of the areas it matches turns the grouping of the first `i` articles into the grouping of the first `i + 1` |
| Grouping.FetchAndGroup | app.py:97-150 | one cycle: every area is a key, and its list is the collected articles that match it |
| Grouping.MatchingMember | app.py:147-150 | an article is in an area's list exactly when it is one of the articles and its text matches the area's keywords |
| Grouping.MatchingPositions | app.py:147-150 | an area's list is picked out of the articles at strictly increasing positions |
| Grouping.EmbedsExtend | app.py:147-150 | positions picked from all but the last article still pick the same articles, and the last position may be added |
| Grouping.MatchingIsSubsequence | app.py:147-150 | each area's list is a subsequence of the articles: discovery order is preserved |
| Grouping.MatchingAppend | app.py:147-150 | the list for two batches of articles in a row is the two batches' lists one after the other |
| Grouping.NoKeywordsNoArticles | app.py:148-149 | an area with no keywords always gets an empty list |
| Grouping.FanOut | app.py:148-150 | an article matching two areas is in both lists, unchanged |
| Grouping.TitleOrSummarySuffices | app.py:120-150 | an article whose title or summary matches an area's keywords is in that area's list |
| PipelineExample.KeywordIsToken | app.py:49-50 | "cancer" and "heart" normalise to themselves and are single tokens |
| PipelineExample.NormalNewsText | app.py:45 | the lower-cased title and the summary of the example entry normalise to themselves |
| PipelineExample.CancerOpensSummary | app.py:58 | "cancer" is a whole word of "cancer treatment breakthrough" |
| PipelineExample.SummaryMatchesOncology | app.py:56-59 | the summary matches the Oncology keywords |
| PipelineExample.TitleNormalForm | app.py:45 | "New Oncology Drug Approved" normalises to "new oncology drug approved" |
| PipelineExample.NoHeartIn | app.py:54 | "heart" is not a substring of the normalised title, nor of the summary |
| PipelineExample.TextMissesCardiology | app.py:56-59 | the article's text does not match the Cardiology keywords |
| PipelineExample.CollectsTheEntry | app.py:102-129 | an entry dated `now` is kept and becomes the one collected article |
| PipelineExample.EndToEnd | app.py:97-150 | the one article matches Oncology and does not match Cardiology |
| PipelineExample.EndToEndCycle | app.py:97-150 | running the fetch and grouping loops puts the article under Oncology and leaves Cardiology as an empty list |

## Left out

- The Streamlit UI is not modelled: the title and header (app.py:16-17), the sidebar selection (app.py:94) and the display of the selected area (app.py:153-164). The grouping result is the model's output.
- Loading `rss_sources.json` and `therapy_areas.json` is file I/O and is not modelled. The sources and the area map are parameters. A source is a name with the entries its feed parsed into, so the feed URL does not appear.
- `feedparser.parse` is network and library work and is not modelled. A feed that fails to load or parse is a source with no entries (`Articles.EmptySourceContributesNothing`).
- BeautifulSoup is not modelled. The title extraction and `clean_html` (app.py:19-23, app.py:113, app.py:117) are two arbitrary string functions passed in as `Articles.Html`. So nothing is proved about image removal or text extraction.
- `fetch_full_article_text` (app.py:63-90) is not modelled. It covers the HTTP request with its timeout, the element-selection chain and the one-hour result cache.
- The block at app.py:131-142 is not modelled. It is mis-indented, which Python rejects as a syntax error, and it reads `entry` and `title_clean` after the loop has ended. The model follows the well-formed loop body at app.py:102-129, so the searchable text is title and summary only.
- Date conversion is not modelled. A parsed date is the integer `time.mktime` returns, so the local-time interpretation of a UTC `struct_time` is outside the model. An exception from `time.mktime` inside the fetch loop is not modelled either. The helper's catch-all `except` is modelled only for a date set to `None`.
- The clock is not modelled. `now` is one integer parameter for the whole cycle, whereas the code reads `datetime.now()` again for each entry (app.py:109). Sub-second precision is not modelled.
- Text.IsWordChar: models `\w` as the ASCII letters, digits and underscore, whereas Python's `\w` on `str` also accepts non-ASCII letters and digits.
- Text.Lower: models `str.lower()` on ASCII A–Z only; non-ASCII case mappings, including those that change the length of the string, are not modelled.
- The order in which the grouping visits the areas is not modelled. `Grouping.AddToMatchingAreas` visits them in an arbitrary order, whereas Python walks the dictionary in insertion order. No area's list depends on that order.
