# WikiSearcher, modelled in Dafny

`wiki.py` defines one class, `WikiSearcher`. It looks a (lower-cased) phrase up with the
Czech Wikipedia search and narrows the returned titles to those whose lower-cased form
contains the phrase. If none does, it keeps them all and marks the result "not relevant".
It remembers the titles and the relevance flag per phrase in the dictionary
`already_searched`. Then it lets the user pick a title, fetches that article's summary or
reuses a stored one, and prints the summary's first paragraph. When the titles were not
relevant, every word of that paragraph that contains the phrase is highlighted. Finally it
offers a new search, the article list again, or the end of the session.

This project models that bookkeeping:

- `pystr.dfy`, module `PyStr`: the Python string operations the class relies on.
  - The substring test `in` is proved equal to "occurs at some position".
  - `str.split()` uses Python's whitespace set. It is pinned down by three facts: the empty
    text has no words, a word splits into itself, and a whitespace character splits the
    text into the words before it and the words after it.
  - `" ".join` is proved to be undone by `split()` on words, and to put whitespace only in
    its separators.
  - `split('\n')[0]` is characterised by its contract.
- `wiki.dfy`, module `Wiki`: the pure parts of the class methods (the two filtering
  comprehensions, the dictionary update, the highlighting and the menu) and the class
  `WikiSearcher`. The class keeps the source's fields: `phrase`, `alreadySearched`,
  `summary`, `foundArticles`, `relevance` and `searchEnd`.
- `session.dfy`, module `WikiSession`: sessions driven step by step through the class,
  stating what the caches save across steps.

Modelling choices:

- `already_searched` is one `map<string, Entry>`. An `Entry` is a title list or a flag.
  Titles live under the phrase, and the flag lives under the synthesised key
  `phrase + "_relevant"`, so the two kinds of key share one namespace. A hit is tested by
  Python truthiness (`Truthy`): `None`, `False` and `[]` are misses. `relevance` is an
  `Option<Entry>` because the source can store `None`, a bool or (after a key collision)
  a list in it.
- `str.lower()` and `termcolor.colored(...)` are the function-valued fields `lower` and
  `mark`. The highlighting lemmas assume only that `mark` turns a word into a word: it adds
  no whitespace and does not return the empty string.
- The remote calls and the prompts are oracle parameters:
  - `results` is the answer of `wikipedia.search`;
  - `fetched` is the answer of `wikipedia.summary`;
  - `pick` is the index of the chosen title;
  - `choice` is the index of the chosen menu entry;
  - `input` is the typed phrase.

  The fields `searchLog` and `summaryLog` record the calls made to the two remote
  functions. This makes "no remote query" something a contract can state.
- In the source, each step calls the next one directly: `search` → `__chose_article` →
  `__getSummary` → `__print_first_paragraph` → `__repeat_or_end` → `search` … The model
  keeps the steps that run without user input inside one method. Each method returns a
  `Prompt` that names the next interactive step: pick an article, pick a menu entry,
  run `search()`, nothing more (`Idle`), or failure (`Crashed`).
- After such a chain of steps returns, the source runs the tail of `search()` again
  (wiki.py:92-95). A chain returns only after "Ukončit vyhledávání" set `__search_end`.
  `FinishSearch` models that tail, and its contract shows it does nothing once the flag is
  set.

Where the code differs from its design description:

- A phrase whose search returned no titles is never cached, so it is queried again each
  time.
- An empty summary counts as a miss, so it is fetched again (`PickAgainUsesSummary`).
- Searching for `q + "_relevant"` after `q` had relevant titles finds the flag `True` where
  a title list belongs. `__chose_article` then gets `True` as its list of choices, and the
  session fails (`RelevanceKeySearchFails`).
- Searching for `q + "_relevant"` after `q`'s titles were not relevant stores a list under
  `q`'s flag key (`RelevanceKeyCollision`). When `q` is searched again, that list becomes the
  relevance. `q`'s summary is then shown under the message for matching titles and is not
  highlighted (`IrrelevantKeyCollision`).
- Titles are compared with the phrase after `lower()`, but `highlight_phrase` tests
  `phrase in t` on the words as written (wiki.py:174). Since the phrase is lower-cased, a
  word that holds it only with capital letters is not highlighted.

The model follows the code in each of these cases.

## Model

| member | source | states |
|---|---|---|
| `PyStr.Contains` | wiki.py:121-122 | `sub in s`: `sub` is a prefix of some suffix of `s`; `ContainsIffOccurs` relates it to positions |
| `PyStr.ContainsIffOccurs` | wiki.py:121-122 | `sub in s` holds exactly when `sub` occurs at some position of `s` |
| `PyStr.SplitFrom` | wiki.py:173 | the scan behind `split()` yields only non-empty, whitespace-free words |
| `PyStr.Split` | wiki.py:173 | `txt.split()` yields only non-empty, whitespace-free words |
| `PyStr.SplitWord` | wiki.py:173 | a single word splits into exactly itself |
| `PyStr.SplitAtSpace` | wiki.py:173 | a whitespace character splits the text into the words before it followed by the words after it |
| `PyStr.SplitKeepsNonSpace` | wiki.py:173 | `split()` drops exactly the whitespace: its words concatenated are the other characters of the text, in order |
| `PyStr.SplitJoin` | wiki.py:173-178 | splitting words joined by single spaces gives back exactly those words |
| `PyStr.JoinSpaces` | wiki.py:178 | `" ".join(words)`; `SplitJoin` proves `split()` undoes it on words |
| `PyStr.JoinSpacesChars` | wiki.py:178 | words joined with `" "` contain no whitespace except the single separators |
| `PyStr.FirstLine` | wiki.py:183-184 | `split('\n')[0]` is a prefix of the text, contains no line feed, and ends at the end of the text or just before its first line feed |
| `Wiki.Truthy` | wiki.py:100 | Python truthiness of a looked-up value, as tested at wiki.py:100, 154 and 185: `None`, `False` and `[]` are false |
| `Wiki.Get` | wiki.py:98 | `already_searched.get(key)`: the stored value, or `None` for a missing key |
| `Wiki.RelevanceKey` | wiki.py:102 | the key `phrase + "_relevant"` is a proper extension of the phrase, so it never equals the phrase |
| `Wiki.Store` | wiki.py:109-117 | after saving, the phrase maps to the titles and `phrase + "_relevant"` to the flag; every other key keeps its value; exactly those two keys are added |
| `Wiki.RelevanceKeyCollision` | wiki.py:111-117 | saving the phrase `q + "_relevant"` replaces `q`'s stored relevance flag by a title list and leaves `q`'s titles alone |
| `Wiki.Keep` | wiki.py:121-122 | each comprehension keeps exactly the titles whose match test has the wanted outcome, and no more titles than it was given |
| `Wiki.KeepAppend` | wiki.py:121-122 | the comprehensions keep the input order (filtering a concatenation concatenates the filtered parts) |
| `Wiki.KeepPartition` | wiki.py:121-122 | the two comprehensions together hold every input title, each exactly as often as in the input |
| `Wiki.NoMatchKeepsAll` | wiki.py:122-131 | when no title matches, the non-matching list is the whole input, unchanged |
| `Wiki.Filter` | wiki.py:120-132 | the titles `__filter_articles` keeps and the relevance flag it sets; its properties are `FilterOutcome` |
| `Wiki.FilterOutcome` | wiki.py:120-132 | relevance holds if and only if some title matches; then only the matching titles are kept, otherwise the list is kept unchanged; a non-empty list never filters to an empty one |
| `Wiki.MarkWords` | wiki.py:172-177 | the loop's list has one entry per word: the marked word when it contains the phrase, the word itself otherwise |
| `Wiki.Highlight` | wiki.py:171-179 | `highlight_phrase`: the words of the text, each marked when it contains the phrase, joined by single spaces; its properties are the three lemmas below |
| `Wiki.HighlightWords` | wiki.py:171-179 | splitting the highlighted text gives as many words as `txt.split()`; each word containing the phrase is marked, every other word is unchanged |
| `Wiki.HighlightLeavesPlainText` | wiki.py:171-179 | single-spaced text none of whose words contains the phrase comes back unchanged |
| `Wiki.HighlightSingleLine` | wiki.py:171-179 | highlighted text contains no line feed and no whitespace other than single separators |
| `Wiki.Paragraph` | wiki.py:182-186 | the text `__print_first_paragraph` wraps and prints; its properties are `DisplayedParagraph` |
| `Wiki.DisplayedParagraph` | wiki.py:182-186 | the shown paragraph has no line feed; with relevant titles it is the summary's text before its first line feed; otherwise it is that text's words, highlighted |
| `Wiki.MessageText` | wiki.py:136-137 | the message shown above the titles; the one for titles that do not match names the phrase searched for |
| `Wiki.Label` | wiki.py:194-195 | the labels of the three menu entries, which `__repeat_or_end` compares at wiki.py:206-210 |
| `Wiki.LabelsDistinct` | wiki.py:194-210 | two menu entries have the same label only if they are the same entry, so the label comparisons in `__repeat_or_end` tell the entries apart |
| `Wiki.MenuChoices` | wiki.py:194-195 | the menu has 3 entries after a search that found articles and 2 otherwise; "back to the list" is offered exactly after a successful search; the first entry is a new search and the last ends the search |
| `Wiki.WikiSearcher.constructor` | wiki.py:77-83 | the phrase is lower-cased; both caches and the found list are empty; relevance is `None` and the search has not ended |
| `Wiki.WikiSearcher.Search` | wiki.py:86-95 | on a truthy cache hit: no remote query, the cache is unchanged, the found titles and relevance are restored from the cache (a cached flag instead of a list fails); every cached title list is such a hit, because `Valid` keeps cached lists non-empty; on a miss: one remote query, then the tail of `search()` |
| `Wiki.WikiSearcher.FinishSearch` | wiki.py:92-95 | once the search has ended nothing changes and nothing is asked; otherwise a non-empty result is filtered and listed, and an empty one leads to the two-entry menu with nothing changed |
| `Wiki.WikiSearcher.CheckPhrase` | wiki.py:97-106 | keeps `Valid`; a hit exactly when the cached value is truthy; a hit restores the relevance from `phrase + "_relevant"` and, for a title list, the found titles; a miss changes nothing |
| `Wiki.WikiSearcher.SaveSearchedArticles` | wiki.py:109-117 | the dictionary afterwards is `Store` of the dictionary before; `Valid` survives when the stored list is non-empty |
| `Wiki.WikiSearcher.FilterArticles` | wiki.py:120-132 | found titles, relevance and cache become the `Filter` outcome and its `Store`; the kept titles are listed next; cached title lists stay non-empty |
| `Wiki.WikiSearcher.ChooseArticle` | wiki.py:135-148 | the message depends on relevance; the picked title's summary is reused when stored and non-empty, else fetched once and stored; no other summary changes; the shown text is the displayed paragraph of the stored summary; the menu with 3 entries follows |
| `Wiki.WikiSearcher.GetSummary` | wiki.py:151-165 | a hit is a stored, non-empty summary (the truthiness test of `__check_summary`), reused without a fetch; otherwise the fetched summary is returned, stored under the title and logged as one fetch; no other title's summary changes; the title returned has always been fetched at some point (`Valid`) |
| `Wiki.WikiSearcher.SaveSummary` | wiki.py:168-169 | the summary map afterwards is the old one with the title mapped to the content; `Valid` survives once that title's fetch is logged |
| `Wiki.WikiSearcher.HighlightPhrase` | wiki.py:171-179 | the loop computes the highlighting `Highlight` of the text |
| `Wiki.WikiSearcher.PrintFirstParagraph` | wiki.py:182-189 | the text before the first line feed, highlighted only when the relevance is falsy, followed by the 3-entry menu |
| `Wiki.WikiSearcher.RepeatOrEnd` | wiki.py:192-210 | keeps `Valid`; a new search lower-cases the input and runs `search()` next; "back" lists the found titles again; "end" sets the end flag and asks nothing more |
| `WikiSession.FirstSearch` | wiki.py:77-95 | a new searcher's first search of a non-empty result lists the filtered titles, stores them and their relevance, and makes one remote query |
| `WikiSession.SearchAndShow` | wiki.py:77-158 | after the first search and the pick of the first listed title, that title's summary is the one fetched, and it is the only fetch |
| `WikiSession.SearchFromMenu` | wiki.py:86-117 | a new search from the menu for an uncached phrase lists its filtered titles and stores them with their relevance under the new phrase |
| `WikiSession.SearchAnother` | wiki.py:135-158 | after that new search and a pick, the dictionary is the old one plus the new phrase's `Store` |
| `WikiSession.SearchAgainUsesCache` | wiki.py:86-105 | searching the same phrase again lists the same titles with the same relevance, and the remote search has been called exactly once |
| `WikiSession.PickAgainUsesSummary` | wiki.py:151-169 | picking the same title again does not fetch its summary a second time, unless the stored summary is empty; then it is fetched again |
| `WikiSession.RelevanceKeySearchFails` | wiki.py:97-117 | after relevant titles for `q`, a search for `q + "_relevant"` makes no remote query and fails on the cached flag |
| `WikiSession.IrrelevantKeyCollision` | wiki.py:97-148 | after non-matching titles for `q` and a search for `q + "_relevant"`, searching `q` again makes a title list the relevance; the summary is then shown under the message for matching titles, as its first line without highlighting |
| `WikiSession.NotFoundThenEnd` | wiki.py:86-95 | an empty result leads to the 2-entry menu, the last statement of `search()`; its last entry ends the search and nothing more is asked |
| `WikiSession.ShownThenEnd` | wiki.py:192-210 | ending after an article was shown leaves the found titles as listed, and the tail of `search()` then does nothing |

## Left out

- `wikipedia.search`, `wikipedia.summary` and `wikipedia.set_lang` are remote calls. Their answers are the parameters `results` and `fetched`, and the locale is not modelled.
- The `inquirer` list prompts and `input` are console interaction. The chosen index and the typed text are parameters, and a prompt can only return one of its listed choices.
- `print` and `textwrap.fill(…, 90)`: the model returns the text that would be wrapped and printed (`shown`). The wrapping itself and the "not found" message are not modelled.
- `termcolor.colored` is the abstract `mark`, and `str.lower()` is the abstract `lower`. Unicode case folding is not modelled.
- The recursion between `search`, `__chose_article`, `__getSummary`, `__print_first_paragraph` and `__repeat_or_end` is modelled as single steps, each returning the next `Prompt`. A whole session is a sequence of such steps, as in `WikiSession`.
- Wiki.WikiSearcher.Search: on a cache hit whose value is the flag `True`, the source also stores `True` in `__found_articles` before it fails. The model reports `Crashed` and leaves `foundArticles` as it was, because the session ends with the exception.
- Wiki.WikiSearcher.FilterArticles: requires a non-empty found list. Its only caller (wiki.py:92) checks this, and the `Valid` invariant (cached title lists are non-empty) depends on it.
- Exceptions raised by the remote service (network errors, disambiguation pages) propagate out of the source unhandled and are not modelled.
