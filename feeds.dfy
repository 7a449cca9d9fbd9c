/** A parsed feed entry and the seven-day recency rule applied to it. */
module Feeds {
  import opened Wrappers

  /** How an entry carries a parsed date attribute: not at all, set to `None`,
      or set to a time that `time.mktime` turns into `seconds`. */
  datatype DateField = Absent | NoneValue | Parsed(seconds: int)

  /** One feed entry as the parser hands it over; every text attribute may be missing. */
  datatype Entry = Entry(
    title: Option<string>,
    summary: Option<string>,
    description: Option<string>,
    link: Option<string>,
    published: Option<string>,
    updated: Option<string>,
    publishedParsed: DateField,
    updatedParsed: DateField)

  /** `timedelta(days=7)`, in seconds. */
  const Week: int := 7 * 86400

  /** A timestamp is recent when it is no earlier than one week before `now`. */
  predicate IsRecent(t: int, now: int) {
    t >= now - Week
  }

  /** `getattr(entry, name, None)` read for its truth value: only a parsed date is truthy. */
  function Truthy(f: DateField): (r: Option<int>) {
    if f.Parsed? then Some(f.seconds) else None
  }

  /** The date the fetch loop uses: the published date if it is truthy, else the updated one. */
  function LoopDate(e: Entry): (r: Option<int>)
  {
    match Truthy(e.publishedParsed)
    case Some(t) => Some(t)
    case None => Truthy(e.updatedParsed)
  }

  /** The fetch loop keeps an entry when it has a date and that date is recent. */
  predicate KeptByLoop(e: Entry, now: int) {
    match LoopDate(e)
    case None => false
    case Some(t) => IsRecent(t, now)
  }

  /** The date `article_in_last_30_days` uses: the attribute is chosen by presence
      (`hasattr`), and a chosen attribute set to `None` makes `time.mktime` raise,
      which the handler turns into no date. */
  function HelperDate(e: Entry): (r: Option<int>)
  {
    if !e.publishedParsed.Absent? then Truthy(e.publishedParsed)
    else if !e.updatedParsed.Absent? then Truthy(e.updatedParsed)
    else None
  }

  /** `article_in_last_30_days`: in spite of its name, a seven-day window. */
  predicate ArticleInLast30Days(e: Entry, now: int) {
    match HelperDate(e)
    case None => false
    case Some(t) => IsRecent(t, now)
  }

  /** The loop's date is the published date when there is one, and the updated
      date exactly when the published one is missing or `None`. */
  lemma LoopDateFallsBack(e: Entry)
    ensures e.publishedParsed.Parsed? ==> LoopDate(e) == Some(e.publishedParsed.seconds)
    ensures !e.publishedParsed.Parsed? ==> LoopDate(e) == Truthy(e.updatedParsed)
    ensures LoopDate(e).None? <==> !e.publishedParsed.Parsed? && !e.updatedParsed.Parsed?
  {
  }

  /** The fetch loop keeps an entry iff one of its dates resolves and is no
      earlier than `now - Week`; the boundary is inclusive and there is no upper bound. */
  lemma KeptByLoopIff(e: Entry, now: int)
    ensures KeptByLoop(e, now) <==> exists t :: LoopDate(e) == Some(t) && now - t <= Week
  {
    if KeptByLoop(e, now) {
      assert LoopDate(e) == Some(LoopDate(e).value);
    }
  }

  /** An undated entry is dropped by both the loop and the helper. */
  lemma UndatedDropped(e: Entry, now: int)
    requires !e.publishedParsed.Parsed? && !e.updatedParsed.Parsed?
    ensures !KeptByLoop(e, now) && !ArticleInLast30Days(e, now)
  {
  }

  /** An entry dated exactly one week before `now`, or at any later time, is kept. */
  lemma BoundaryAndFutureKept(e: Entry, now: int, t: int)
    requires e.publishedParsed == Parsed(t)
    ensures KeptByLoop(e, now) <==> t >= now - Week
    ensures t == now - Week ==> KeptByLoop(e, now)
    ensures t > now ==> KeptByLoop(e, now)
  {
  }

  /** An entry kept at some clock reading is kept at every earlier one. */
  lemma KeptMonotone(e: Entry, now: int, earlier: int)
    requires earlier <= now
    ensures KeptByLoop(e, now) ==> KeptByLoop(e, earlier)
  {
  }

  /** Whatever the helper accepts, the fetch loop accepts too. */
  lemma HelperImpliesLoop(e: Entry, now: int)
    ensures ArticleInLast30Days(e, now) ==> KeptByLoop(e, now)
  {
  }

  /** When neither date attribute is set to `None`, the helper and the loop agree. */
  lemma HelperAgreesWithLoop(e: Entry, now: int)
    requires !e.publishedParsed.NoneValue? && !e.updatedParsed.NoneValue?
    ensures ArticleInLast30Days(e, now) <==> KeptByLoop(e, now)
  {
  }

  /** A published date present but `None` separates them: the loop falls back to the
      updated date, the helper raises and answers False. */
  lemma HelperDiffersOnNone(e: Entry, now: int)
    requires e.publishedParsed == NoneValue && e.updatedParsed == Parsed(now)
    ensures KeptByLoop(e, now) && !ArticleInLast30Days(e, now)
  {
  }

  /** The helper's window is seven days, not thirty: an entry eight days old fails it. */
  lemma HelperWindowIsSevenDays(e: Entry, now: int)
    requires e.publishedParsed == Parsed(now - 8 * 86400)
    ensures !ArticleInLast30Days(e, now)
  {
  }
}
