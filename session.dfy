/** Sessions of WikiSearcher driven step by step, as the source's chain of prompts runs them:
    each method starts a fresh searcher, answers its prompts with the given choices, and
    states what the session shows and which remote calls it makes. */
module WikiSession {
  import opened PyStr
  import opened Wiki

  /** A new searcher for `initial` whose remote search answers `results`. */
  method FirstSearch(lower: string -> string, mark: string -> string, initial: string, results: seq<string>)
    returns (s: WikiSearcher, listed: Prompt)
    requires results != []
    ensures fresh(s) && s.Valid() && s.lower == lower && s.mark == mark
    ensures s.phrase == lower(initial) && !s.searchEnd && s.searchLog == [s.phrase]
    ensures s.summary == map[] && s.summaryLog == []
    ensures var f := Filter(lower, s.phrase, results);
            && listed == PickArticle(f.articles) && f.articles != [] && s.foundArticles == f.articles
            && s.alreadySearched == Store(map[], s.phrase, f.articles, f.relevant)
            && s.relevance == Some(Flag(f.relevant))
  {
    s := new WikiSearcher(initial, lower, mark);
    FilterOutcome(lower, s.phrase, results);
    listed := s.Search(results);
  }

  /** The opening of every session below: FirstSearch, after which the user picks the first
      listed title, whose summary is `fetched`. */
  method SearchAndShow(lower: string -> string, mark: string -> string, initial: string,
                       results: seq<string>, fetched: string)
    returns (s: WikiSearcher, listed: Prompt)
    requires results != []
    ensures fresh(s) && s.Valid() && s.lower == lower && s.mark == mark
    ensures s.phrase == lower(initial) && !s.searchEnd && s.searchLog == [s.phrase]
    ensures var f := Filter(lower, s.phrase, results);
            && listed == PickArticle(f.articles) && f.articles != [] && s.foundArticles == f.articles
            && s.alreadySearched == Store(map[], s.phrase, f.articles, f.relevant)
            && s.relevance == Some(Flag(f.relevant))
    ensures s.summary == map[listed.articles[0] := fetched] && s.summaryLog == [listed.articles[0]]
  {
    s, listed := FirstSearch(lower, mark, initial, results);
    var message, shown, next := s.ChooseArticle(listed.articles, 0, fetched);
  }

  /** A new search from the menu after an article was shown: the user types `input`, whose
      phrase was not cached, and the remote search answers `results`. */
  method SearchFromMenu(s: WikiSearcher, input: string, results: seq<string>) returns (listed: Prompt)
    requires s.Valid() && !s.searchEnd && results != []
    requires !Truthy(Get(s.alreadySearched, s.lower(input)))
    modifies s
    ensures s.Valid() && !s.searchEnd && s.phrase == s.lower(input)
    ensures s.summary == old(s.summary) && s.summaryLog == old(s.summaryLog)
    ensures var f := Filter(s.lower, s.phrase, results);
            && listed == PickArticle(f.articles) && f.articles != []
            && s.alreadySearched == Store(old(s.alreadySearched), s.phrase, f.articles, f.relevant)
  {
    var step := s.RepeatOrEnd(true, 0, input);
    FilterOutcome(s.lower, s.phrase, results);
    listed := s.Search(results);
  }

  /** SearchFromMenu, after which the user picks the first listed title, whose summary is `fetched`. */
  method SearchAnother(s: WikiSearcher, input: string, results: seq<string>, fetched: string)
    requires s.Valid() && !s.searchEnd && results != []
    requires !Truthy(Get(s.alreadySearched, s.lower(input)))
    modifies s
    ensures s.Valid() && !s.searchEnd && s.phrase == s.lower(input)
    ensures var f := Filter(s.lower, s.phrase, results);
            s.alreadySearched == Store(old(s.alreadySearched), s.phrase, f.articles, f.relevant)
  {
    var listed := SearchFromMenu(s, input, results);
    var message, shown, next := s.ChooseArticle(listed.articles, 0, fetched);
  }

  /** Searching the same phrase again serves the cached titles and relevance and makes no
      second remote query (the second search is given no results at all). */
  method SearchAgainUsesCache(lower: string -> string, mark: string -> string, initial: string,
                              again: string, results: seq<string>, fetched: string)
    returns (first: Prompt, second: Prompt, firstRelevance: Option<Entry>, secondRelevance: Option<Entry>,
             queries: seq<string>)
    requires results != []
    requires lower(again) == lower(initial)
    ensures first.PickArticle? && first.articles != []
    ensures second == first
    ensures secondRelevance == firstRelevance && firstRelevance.Some? && firstRelevance.value.Flag?
    ensures queries == [lower(initial)]
  {
    var s;
    s, first := SearchAndShow(lower, mark, initial, results, fetched);
    firstRelevance := s.relevance;
    var step := s.RepeatOrEnd(true, 0, again);
    second := s.Search([]);
    secondRelevance := s.relevance;
    queries := s.searchLog;
  }

  /** Going back to the article list and picking the same title again reuses its stored
      summary, unless that summary was empty: an empty summary counts as a miss and is fetched
      again (its second answer `fetchedAgain` is then stored). */
  method PickAgainUsesSummary(lower: string -> string, mark: string -> string, initial: string,
                              results: seq<string>, fetched: string, fetchedAgain: string)
    returns (title: string, fetches: seq<string>, stored: string)
    requires results != []
    ensures fetched != "" ==> fetches == [title] && stored == fetched
    ensures fetched == "" ==> fetches == [title, title] && stored == fetchedAgain
  {
    var s, listed;
    s, listed := SearchAndShow(lower, mark, initial, results, fetched);
    title := listed.articles[0];
    var back := s.RepeatOrEnd(true, 1, "");
    var message, shown, next := s.ChooseArticle(back.articles, 0, fetchedAgain);
    fetches := s.summaryLog;
    stored := s.summary[title];
  }

  /** After a search whose titles matched, searching the phrase's relevance key finds the
      cached flag True where a title list belongs; __chose_article then receives True as
      its list of choices and the session fails. No second remote query is made. */
  method RelevanceKeySearchFails(lower: string -> string, mark: string -> string, initial: string,
                                 again: string, results: seq<string>, fetched: string)
    returns (first: Prompt, second: Prompt, queries: seq<string>)
    requires results != [] && Matches(lower, lower(initial), results[0])
    requires lower(again) == lower(initial) + "_relevant"
    ensures first.PickArticle? && results[0] in first.articles
    ensures second == Crashed
    ensures queries == [lower(initial)]
  {
    FilterOutcome(lower, lower(initial), results);
    var s;
    s, first := SearchAndShow(lower, mark, initial, results, fetched);
    var step := s.RepeatOrEnd(true, 0, again);
    second := s.Search([]);
    queries := s.searchLog;
  }

  /** After a search for `q` whose titles did not match, a search for `q + "_relevant"` stores
      its titles over q's relevance flag. Searching `q` once more then serves q's cached titles,
      but with that title list as the relevance: the summary is shown under the message for
      matching titles and without highlighting, unlike the first time. */
  method IrrelevantKeyCollision(lower: string -> string, mark: string -> string, initial: string,
                                again: string, back: string, results: seq<string>, others: seq<string>,
                                fetched: string, fetchedOther: string, fetchedLast: string)
    returns (firstRelevance: Option<Entry>, lastRelevance: Option<Entry>, message: Message,
             shown: string, stored: string)
    requires results != [] && others != []
    requires forall i :: 0 <= i < |results| ==> !Matches(lower, lower(initial), results[i])
    requires lower(again) == RelevanceKey(lower(initial)) && lower(back) == lower(initial)
    ensures firstRelevance == Some(Flag(false))
    ensures lastRelevance.Some? && lastRelevance.value.Titles? && Truthy(lastRelevance)
    ensures message == Found && shown == FirstLine(stored)
  {
    var q := lower(initial);
    FilterOutcome(lower, q, results);
    var s, listed;
    s, listed := SearchAndShow(lower, mark, initial, results, fetched);
    firstRelevance := s.relevance;
    SearchAnother(s, again, others, fetchedOther);
    var f := Filter(lower, RelevanceKey(q), others);
    RelevanceKeyCollision(map[], q, results, false, f.articles, f.relevant);
    var step := s.RepeatOrEnd(true, 0, back);
    var listedAgain := s.Search([]);
    lastRelevance := s.relevance;
    var next;
    message, shown, next := s.ChooseArticle(listedAgain.articles, 0, fetchedLast);
    stored := s.summary[listedAgain.articles[0]];
  }

  /** A search that finds nothing offers the two-entry menu, whose call is the last statement
      of search(); choosing the menu's last entry ends the search and nothing is asked after it. */
  method NotFoundThenEnd(lower: string -> string, mark: string -> string, initial: string)
    returns (first: Prompt, second: Prompt, ended: bool)
    ensures first == PickNext(false)
    ensures second == Idle && ended
  {
    var s := new WikiSearcher(initial, lower, mark);
    first := s.Search([]);
    second := s.RepeatOrEnd(first.searched, |MenuChoices(first.searched)| - 1, "");
    ended := s.searchEnd;
  }

  /** Ending after an article was shown leaves the found articles as they were: the tail of
      search() that runs afterwards does nothing. */
  method ShownThenEnd(lower: string -> string, mark: string -> string, initial: string,
                      results: seq<string>, fetched: string)
    returns (listed: Prompt, tail: Prompt, found: seq<string>)
    requires results != []
    ensures listed.PickArticle? && tail == Idle && found == listed.articles
  {
    var s;
    s, listed := SearchAndShow(lower, mark, initial, results, fetched);
    var step := s.RepeatOrEnd(true, |MenuChoices(true)| - 1, "");
    tail := s.FinishSearch();
    found := s.foundArticles;
  }
}
