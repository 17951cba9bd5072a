/** WikiSearcher: look a phrase up with a remote encyclopedia search, narrow the titles to
    those that contain the phrase, let the user pick one, show the first paragraph of its
    summary (highlighting the phrase when no title contained it), then offer a new search,
    the article list again, or the end of the session.

    The remote search and summary calls, the list prompts and the text input are oracle
    parameters; `str.lower()` and `termcolor.colored(...)` are the function-valued fields
    `lower` and `mark`. Each method runs until the source hands control to the next prompt
    or to `search()`, and returns a Prompt that names that next step. */
module Wiki {
  import opened PyStr

  datatype Option<T> = None | Some(value: T)

  /** A value of the dictionary already_searched: the titles stored under a phrase, or the
      relevance flag stored under the phrase's relevance key. Both kinds share one key space. */
  datatype Entry = Titles(titles: seq<string>) | Flag(flag: bool)

  /** Python truthiness of a looked-up value: None, False and the empty list are false. */
  predicate Truthy(v: Option<Entry>)
  {
    match v
    case None => false
    case Some(Flag(b)) => b
    case Some(Titles(ts)) => ts != []
  }

  /** `m.get(key)` */
  function Get(m: map<string, Entry>, key: string): Option<Entry>
  {
    if key in m then Some(m[key]) else None
  }

  /** The synthesised key `"{p}_relevant".format(p=phrase)`: a proper extension of the phrase,
      so the two entries one save writes never land on the same key. */
  function RelevanceKey(phrase: string): (k: string)
    ensures phrase < k
  {
    phrase + "_relevant"
  }

  /** What __save_searched_articles does to already_searched: the titles go under the phrase
      and the flag under its relevance key; every other key keeps its value. */
  function Store(m: map<string, Entry>, phrase: string, articles: seq<string>, relevant: bool): (m': map<string, Entry>)
    ensures Get(m', phrase) == Some(Titles(articles))
    ensures Get(m', RelevanceKey(phrase)) == Some(Flag(relevant))
    ensures forall k :: k != phrase && k != RelevanceKey(phrase) ==> Get(m', k) == Get(m, k)
    ensures m'.Keys == m.Keys + {phrase, RelevanceKey(phrase)}
  {
    assert |RelevanceKey(phrase)| != |phrase|;
    m[phrase := Titles(articles)][RelevanceKey(phrase) := Flag(relevant)]
  }

  /** Storing a phrase whose text is another phrase's relevance key replaces that phrase's
      relevance flag by a title list: the two kinds of key collide. */
  lemma RelevanceKeyCollision(m: map<string, Entry>, q: string, qTitles: seq<string>, qRelevant: bool,
                              titles: seq<string>, relevant: bool)
    ensures var m1 := Store(m, q, qTitles, qRelevant);
            var m2 := Store(m1, RelevanceKey(q), titles, relevant);
            && Get(m1, RelevanceKey(q)) == Some(Flag(qRelevant))
            && Get(m2, q) == Some(Titles(qTitles))
            && Get(m2, RelevanceKey(q)) == Some(Titles(titles))
  {
    var m1 := Store(m, q, qTitles, qRelevant);
    assert q != RelevanceKey(q) && q != RelevanceKey(RelevanceKey(q)) by {
      assert |q| < |RelevanceKey(q)| < |RelevanceKey(RelevanceKey(q))|;
    }
  }

  /** `phrase in title.lower()` */
  predicate Matches(lower: string -> string, phrase: string, title: string)
  {
    Contains(lower(title), phrase)
  }

  /** The comprehension `[x for x in titles if (phrase in x.lower()) == want]`. */
  function Keep(lower: string -> string, phrase: string, titles: seq<string>, want: bool): (r: seq<string>)
    ensures |r| <= |titles|
    ensures forall i :: 0 <= i < |r| ==> Matches(lower, phrase, r[i]) == want
    ensures forall x :: x in r <==> x in titles && Matches(lower, phrase, x) == want
  {
    if titles == [] then []
    else if Matches(lower, phrase, titles[0]) == want then [titles[0]] + Keep(lower, phrase, titles[1..], want)
    else Keep(lower, phrase, titles[1..], want)
  }

  /** Keep works title by title, so it keeps the order of the titles. */
  lemma {:induction false} KeepAppend(lower: string -> string, phrase: string, a: seq<string>, b: seq<string>, want: bool)
    ensures Keep(lower, phrase, a + b, want) == Keep(lower, phrase, a, want) + Keep(lower, phrase, b, want)
  {
    if a == [] {
      assert a + b == b;
    } else {
      var rest := Keep(lower, phrase, a[1..] + b, want);
      assert (a + b)[0] == a[0];
      assert (a + b)[1..] == a[1..] + b;
      KeepAppend(lower, phrase, a[1..], b, want);
      if Matches(lower, phrase, a[0]) == want {
        calc {
          Keep(lower, phrase, a + b, want);
          [a[0]] + rest;
          [a[0]] + (Keep(lower, phrase, a[1..], want) + Keep(lower, phrase, b, want));
          ([a[0]] + Keep(lower, phrase, a[1..], want)) + Keep(lower, phrase, b, want);
        }
      }
    }
  }

  /** The two comprehensions together account for every title, as often as it occurs. */
  lemma {:induction false} KeepPartition(lower: string -> string, phrase: string, titles: seq<string>)
    ensures multiset(Keep(lower, phrase, titles, true)) + multiset(Keep(lower, phrase, titles, false)) == multiset(titles)
    ensures |Keep(lower, phrase, titles, true)| + |Keep(lower, phrase, titles, false)| == |titles|
  {
    if titles != [] {
      KeepPartition(lower, phrase, titles[1..]);
      assert titles == [titles[0]] + titles[1..];
      assert multiset(titles) == multiset{titles[0]} + multiset(titles[1..]);
    }
  }

  /** When no title matches, the second comprehension is the whole list, in order. */
  lemma {:induction false} NoMatchKeepsAll(lower: string -> string, phrase: string, titles: seq<string>)
    requires Keep(lower, phrase, titles, true) == []
    ensures Keep(lower, phrase, titles, false) == titles
  {
    if titles != [] {
      assert titles[0] in titles;
      assert !Matches(lower, phrase, titles[0]);
      NoMatchKeepsAll(lower, phrase, titles[1..]);
    }
  }

  /** The outcome of __filter_articles: the titles kept and the relevance flag. */
  datatype Filtered = Filtered(articles: seq<string>, relevant: bool)

  function Filter(lower: string -> string, phrase: string, titles: seq<string>): Filtered
  {
    var relevantNames := Keep(lower, phrase, titles, true);
    if relevantNames != [] then Filtered(relevantNames, true)
    else Filtered(Keep(lower, phrase, titles, false), false)
  }

  /** Relevance holds exactly when some title matches; then only the matching titles are kept,
      otherwise the list is kept unchanged; a non-empty list never filters to nothing. */
  lemma FilterOutcome(lower: string -> string, phrase: string, titles: seq<string>)
    ensures var f := Filter(lower, phrase, titles);
            && (f.relevant <==> exists i :: 0 <= i < |titles| && Matches(lower, phrase, titles[i]))
            && (f.relevant ==> f.articles == Keep(lower, phrase, titles, true))
            && (!f.relevant ==> f.articles == titles)
            && (titles != [] ==> f.articles != [])
  {
    var relevantNames := Keep(lower, phrase, titles, true);
    if relevantNames == [] {
      NoMatchKeepsAll(lower, phrase, titles);
    } else {
      assert relevantNames[0] in titles;
    }
  }

  /** `colored(t, ...)` wraps a word into a word: it adds no whitespace and keeps it non-empty. */
  ghost predicate MarksWords(mark: string -> string)
  {
    forall w :: IsWord(w) ==> IsWord(mark(w))
  }

  /** One step of the loop in highlight_phrase. */
  function MarkWord(w: string, phrase: string, mark: string -> string): string
  {
    if Contains(w, phrase) then mark(w) else w
  }

  /** The list highlight_phrase builds: each word, marked when it contains the phrase. */
  function MarkWords(words: seq<string>, phrase: string, mark: string -> string): (r: seq<string>)
    ensures |r| == |words|
    ensures forall i :: 0 <= i < |r| ==> r[i] == (if Contains(words[i], phrase) then mark(words[i]) else words[i])
  {
    if words == [] then []
    else MarkWords(words[..|words| - 1], phrase, mark) + [MarkWord(words[|words| - 1], phrase, mark)]
  }

  /** highlight_phrase(txt, phrase) */
  function Highlight(txt: string, phrase: string, mark: string -> string): string
  {
    JoinSpaces(MarkWords(Split(txt), phrase, mark))
  }

  /** Splitting the highlighted text gives exactly as many words as splitting the input;
      each word containing the phrase is marked and every other word is unchanged. */
  lemma HighlightWords(txt: string, phrase: string, mark: string -> string)
    requires MarksWords(mark)
    ensures var ws := Split(txt);
            var hs := Split(Highlight(txt, phrase, mark));
            && |hs| == |ws|
            && forall i :: 0 <= i < |hs| ==> hs[i] == (if Contains(ws[i], phrase) then mark(ws[i]) else ws[i])
  {
    var ms := MarkWords(Split(txt), phrase, mark);
    assert AllWords(ms);
    SplitJoin(ms);
  }

  /** Text that is already single-spaced words, none containing the phrase, is left as it is. */
  lemma HighlightLeavesPlainText(words: seq<string>, phrase: string, mark: string -> string)
    requires AllWords(words)
    requires forall i :: 0 <= i < |words| ==> !Contains(words[i], phrase)
    ensures Highlight(JoinSpaces(words), phrase, mark) == JoinSpaces(words)
  {
    SplitJoin(words);
    assert MarkWords(words, phrase, mark) == words;
  }

  /** Highlighted text holds no line feed, nor any whitespace other than single separators. */
  lemma HighlightSingleLine(txt: string, phrase: string, mark: string -> string)
    requires MarksWords(mark)
    ensures forall k :: 0 <= k < |Highlight(txt, phrase, mark)| ==>
              Highlight(txt, phrase, mark)[k] == ' ' || !IsSpace(Highlight(txt, phrase, mark)[k])
    ensures '\n' !in Highlight(txt, phrase, mark)
  {
    var ms := MarkWords(Split(txt), phrase, mark);
    assert AllWords(ms);
    forall k | 0 <= k < |JoinSpaces(ms)| ensures JoinSpaces(ms)[k] == ' ' || !IsSpace(JoinSpaces(ms)[k]) {
      JoinSpacesChars(ms, k);
    }
  }

  /** What __print_first_paragraph shows (before wrapping to 90 columns). */
  function Paragraph(content: string, relevant: bool, phrase: string, mark: string -> string): string
  {
    var first := FirstLine(content);
    if relevant then first else Highlight(first, phrase, mark)
  }

  /** The shown paragraph has no line feed. With relevant titles it is the summary's text
      before its first line feed; otherwise it is that text's words, highlighted. */
  lemma DisplayedParagraph(content: string, relevant: bool, phrase: string, mark: string -> string)
    requires MarksWords(mark)
    ensures var shown := Paragraph(content, relevant, phrase, mark);
            && '\n' !in shown
            && (relevant ==> shown <= content && (shown == content || content[|shown|] == '\n'))
            && (!relevant ==> Split(shown) == MarkWords(Split(FirstLine(content)), phrase, mark))
  {
    if !relevant {
      HighlightSingleLine(FirstLine(content), phrase, mark);
      var ms := MarkWords(Split(FirstLine(content)), phrase, mark);
      assert AllWords(ms);
      SplitJoin(ms);
    }
  }

  /** The two messages __chose_article can show above the list of titles. */
  datatype Message = Found | NotExact(phrase: string)

  /** The text of a message; the not-exact message names the phrase searched for. */
  function MessageText(m: Message): (r: string)
    ensures m.NotExact? ==> Contains(r, m.phrase)
  {
    match m
    case Found => "Nalezené články - zvolte článek"
    case NotExact(p) =>
      var lead := "Článek s názvem ";
      var r := lead + p + " nebyl nalezen, ale hledaná fráze je součást těchto článků - zvolte článek";
      assert OccursAt(r, p, |lead|) by {
        assert r[|lead|..|lead| + |p|] == p;
      }
      ContainsIffOccurs(r, p);
      r
  }

  /** The entries of the menu of __repeat_or_end; the source compares the label it gets back. */
  datatype Choice = NewSearch | Back | End

  function Label(c: Choice): string
  {
    match c
    case NewSearch => "Vyhledávání nové fráze"
    case Back => "Vrátit se k výběru článků"
    case End => "Ukončit vyhledávání"
  }

  /** Distinct entries have distinct labels, so comparing labels tells the entries apart. */
  lemma LabelsDistinct(c: Choice, d: Choice)
    ensures Label(c) == Label(d) <==> c == d
  {
    if c != d {
      assert |Label(c)| != |Label(d)|;
    }
  }

  /** The choices of __repeat_or_end: three after a search that found articles, two otherwise;
      the list of articles is offered again only after a search that found some, and the
      last entry always ends the search. */
  function MenuChoices(searched: bool): (cs: seq<Choice>)
    ensures |cs| == (if searched then 3 else 2)
    ensures cs[0] == NewSearch && cs[|cs| - 1] == End
    ensures Back in cs <==> searched
  {
    if searched then [NewSearch, Back, End] else [NewSearch, End]
  }

  /** The step a method hands control to when it returns. */
  datatype Prompt =
    | SearchPhrase                      // search() runs next, on the current phrase
    | PickArticle(articles: seq<string>) // __chose_article lists these titles
    | PickNext(searched: bool)          // __repeat_or_end offers MenuChoices(searched)
    | Idle                              // nothing further: the search has ended
    | Crashed                           // a cached flag reached __chose_article as its list (TypeError)

  class WikiSearcher {
    /** `str.lower()` and `colored(·, 'magenta', attrs=['bold'])`, taken as given functions. */
    const lower: string -> string
    const mark: string -> string

    var phrase: string
    var alreadySearched: map<string, Entry>
    var summary: map<string, string>
    var foundArticles: seq<string>
    var relevance: Option<Entry>
    var searchEnd: bool
    /** The phrases sent to the remote search and the titles whose summary was fetched, in call order. */
    var searchLog: seq<string>
    var summaryLog: seq<string>

    /** Every title list in already_searched is non-empty, and every stored summary was fetched. */
    ghost predicate Valid()
      reads this
    {
      && (forall k :: k in alreadySearched && alreadySearched[k].Titles? ==> alreadySearched[k].titles != [])
      && (forall t :: t in summary ==> t in summaryLog)
    }

    constructor (initial: string, lower: string -> string, mark: string -> string)
      ensures Valid()
      ensures this.lower == lower && this.mark == mark && phrase == lower(initial)
      ensures alreadySearched == map[] && summary == map[] && foundArticles == []
      ensures relevance == None && !searchEnd && searchLog == [] && summaryLog == []
    {
      this.lower := lower;
      this.mark := mark;
      phrase := lower(initial);
      alreadySearched := map[];
      summary := map[];
      foundArticles := [];
      relevance := None;
      searchEnd := false;
      searchLog := [];
      summaryLog := [];
    }

    /** search(): a cached phrase goes straight to the article list; otherwise the remote
        search (whose answer is `results`) runs and the rest of search() follows. */
    method Search(results: seq<string>) returns (p: Prompt)
      requires Valid()
      modifies this`alreadySearched, this`foundArticles, this`relevance, this`searchLog
      ensures Valid()
      ensures var cached := Get(old(alreadySearched), phrase);
              Truthy(cached) ==>
                && searchLog == old(searchLog)
                && alreadySearched == old(alreadySearched)
                && relevance == Get(old(alreadySearched), RelevanceKey(phrase))
                && (cached.value.Titles? ==> foundArticles == cached.value.titles && p == PickArticle(foundArticles))
                && (cached.value.Flag? ==> foundArticles == old(foundArticles) && p == Crashed)
      ensures var cached := Get(old(alreadySearched), phrase);
              cached.Some? && cached.value.Titles? ==> searchLog == old(searchLog) && p == PickArticle(cached.value.titles)
      ensures var cached := Get(old(alreadySearched), phrase);
              var f := Filter(lower, phrase, results);
              !Truthy(cached) ==>
                && searchLog == old(searchLog) + [phrase]
                && (searchEnd || results == [] ==>
                      foundArticles == results && relevance == old(relevance)
                      && alreadySearched == old(alreadySearched)
                      && p == (if searchEnd then Idle else PickNext(false)))
                && (!searchEnd && results != [] ==>
                      foundArticles == f.articles && relevance == Some(Flag(f.relevant))
                      && alreadySearched == Store(old(alreadySearched), phrase, f.articles, f.relevant)
                      && p == PickArticle(foundArticles))
    {
      var handoff := CheckPhrase();
      if handoff.Some? {
        p := handoff.value;
        return;
      }
      foundArticles := results;
      searchLog := searchLog + [phrase];
      p := FinishSearch();
    }

    /** The tail of search(): filter a non-empty result, report an empty one with the short
        menu, and do neither once the search has ended. In the source these lines run again
        after every chain of prompts returns, and each such chain returns only after "end"
        was chosen; so there they find searchEnd set and change nothing. */
    method FinishSearch() returns (p: Prompt)
      requires Valid()
      modifies this`alreadySearched, this`foundArticles, this`relevance
      ensures Valid()
      ensures old(searchEnd) ==> p == Idle && unchanged(this)
      ensures !searchEnd && old(foundArticles) == [] ==> p == PickNext(false) && unchanged(this)
      ensures var f := Filter(lower, phrase, old(foundArticles));
              !searchEnd && old(foundArticles) != [] ==>
                && foundArticles == f.articles && relevance == Some(Flag(f.relevant))
                && alreadySearched == Store(old(alreadySearched), phrase, f.articles, f.relevant)
                && p == PickArticle(foundArticles)
    {
      p := Idle;
      if foundArticles != [] && !searchEnd {
        p := FilterArticles();
      }
      if foundArticles == [] && !searchEnd {
        p := PickNext(false);
      }
    }

    /** __check_pharse: a truthy cached value restores the relevance from the relevance key
        and, when it is a title list, the found articles; a falsy one is a miss. */
    method CheckPhrase() returns (handoff: Option<Prompt>)
      requires Valid()
      modifies this`relevance, this`foundArticles
      ensures Valid()
      ensures var cached := Get(alreadySearched, phrase);
              && (handoff.Some? <==> Truthy(cached))
              && (Truthy(cached) ==> relevance == Get(alreadySearched, RelevanceKey(phrase)))
              && (Truthy(cached) && cached.value.Titles? ==>
                    foundArticles == cached.value.titles && handoff == Some(PickArticle(foundArticles)))
              && (Truthy(cached) && cached.value.Flag? ==> foundArticles == old(foundArticles) && handoff == Some(Crashed))
              && (!Truthy(cached) ==> relevance == old(relevance) && foundArticles == old(foundArticles))
    {
      var articles := Get(alreadySearched, phrase);
      if Truthy(articles) {
        relevance := Get(alreadySearched, RelevanceKey(phrase));
        match articles.value
        case Titles(ts) =>
          foundArticles := ts;
          handoff := Some(PickArticle(ts));
        case Flag(_) =>
          handoff := Some(Crashed);
      } else {
        handoff := None;
      }
    }

    /** __save_searched_articles; storing an empty title list would break Valid, and its only
        caller never does. */
    method SaveSearchedArticles(articles: seq<string>, relevant: bool)
      requires Valid()
      modifies this`alreadySearched
      ensures articles != [] ==> Valid()
      ensures alreadySearched == Store(old(alreadySearched), phrase, articles, relevant)
    {
      if relevant {
        alreadySearched := alreadySearched[phrase := Titles(articles)];
        alreadySearched := alreadySearched[RelevanceKey(phrase) := Flag(true)];
      } else {
        alreadySearched := alreadySearched[phrase := Titles(articles)];
        alreadySearched := alreadySearched[RelevanceKey(phrase) := Flag(false)];
      }
    }

    /** __filter_articles: keep the matching titles when there are any, else all of them;
        record the outcome in already_searched and list the kept titles. Its only caller
        runs it on a non-empty result. */
    method FilterArticles() returns (p: Prompt)
      requires Valid()
      requires foundArticles != []
      modifies this`alreadySearched, this`foundArticles, this`relevance
      ensures Valid()
      ensures var f := Filter(lower, phrase, old(foundArticles));
              && foundArticles == f.articles && relevance == Some(Flag(f.relevant))
              && alreadySearched == Store(old(alreadySearched), phrase, f.articles, f.relevant)
              && p == PickArticle(foundArticles)
    {
      FilterOutcome(lower, phrase, foundArticles);
      var relevantNames := Keep(lower, phrase, foundArticles, true);
      var notRelevantNames := Keep(lower, phrase, foundArticles, false);
      if relevantNames != [] {
        relevance := Some(Flag(true));
        SaveSearchedArticles(relevantNames, true);
        foundArticles := relevantNames;
        p := PickArticle(relevantNames);
      } else {
        relevance := Some(Flag(false));
        SaveSearchedArticles(notRelevantNames, false);
        foundArticles := notRelevantNames;
        p := PickArticle(notRelevantNames);
      }
    }

    /** __chose_article followed by __getSummary and __print_first_paragraph: the user picks
        the title at index `pick`, `fetched` is what the remote summary call would return. */
    method ChooseArticle(articles: seq<string>, pick: nat, fetched: string)
      returns (message: Message, shown: string, p: Prompt)
      requires Valid()
      requires pick < |articles|
      modifies this`summary, this`summaryLog
      ensures Valid()
      ensures message == if Truthy(relevance) then Found else NotExact(phrase)
      ensures var title := articles[pick];
              var cached := title in old(summary) && old(summary)[title] != "";
              var content := if cached then old(summary)[title] else fetched;
              && summary == old(summary)[title := content]
              && summaryLog == (if cached then old(summaryLog) else old(summaryLog) + [title])
              && shown == Paragraph(summary[title], Truthy(relevance), phrase, mark)
      ensures p == PickNext(true)
    {
      if Truthy(relevance) {
        message := Found;
      } else {
        message := NotExact(phrase);
      }
      var content := GetSummary(articles[pick], fetched);
      shown, p := PrintFirstParagraph(content);
    }

    /** __check_summary: a hit only for a stored, non-empty summary. */
    function CheckSummary(article: string): Option<string>
      reads this
    {
      if article in summary && summary[article] != "" then Some(summary[article]) else None
    }

    /** __save_summary; Valid survives it once the fetch of `article` has been logged. */
    method SaveSummary(article: string, content: string)
      requires Valid()
      modifies this`summary
      ensures article in summaryLog ==> Valid()
      ensures summary == old(summary)[article := content]
    {
      summary := summary[article := content];
    }

    /** __getSummary up to its display call: reuse a non-empty stored summary, otherwise
        fetch it (`fetched`) and store it; no other title's summary changes. */
    method GetSummary(article: string, fetched: string) returns (content: string)
      requires Valid()
      modifies this`summary, this`summaryLog
      ensures Valid()
      ensures var cached := article in old(summary) && old(summary)[article] != "";
              && (cached ==> content == old(summary)[article] && summary == old(summary) && summaryLog == old(summaryLog))
              && (!cached ==> content == fetched && summary == old(summary)[article := fetched]
                              && summaryLog == old(summaryLog) + [article])
      ensures article in summaryLog
    {
      var articleContent := CheckSummary(article);
      if articleContent.None? {
        content := fetched;
        summaryLog := summaryLog + [article];
        SaveSummary(article, content);
      } else {
        content := articleContent.value;
      }
    }

    /** highlight_phrase, with its loop. */
    method HighlightPhrase(txt: string, phrase: string) returns (r: string)
      ensures r == Highlight(txt, phrase, mark)
    {
      var words := Split(txt);
      var highlightedText: seq<string> := [];
      for i := 0 to |words|
        invariant highlightedText == MarkWords(words[..i], phrase, mark)
      {
        var t := words[i];
        if Contains(t, phrase) {
          highlightedText := highlightedText + [mark(t)];
        } else {
          highlightedText := highlightedText + [t];
        }
        assert words[..i + 1][..i] == words[..i];
      }
      assert words[..|words|] == words;
      r := JoinSpaces(highlightedText);
    }

    /** __print_first_paragraph up to its call to __repeat_or_end. */
    method PrintFirstParagraph(content: string) returns (shown: string, p: Prompt)
      ensures shown == Paragraph(content, Truthy(relevance), phrase, mark)
      ensures p == PickNext(true)
    {
      var paragraphs := FirstLine(content);
      shown := paragraphs;
      if !Truthy(relevance) {
        shown := HighlightPhrase(shown, phrase);
      }
      p := PickNext(true);
    }

    /** __repeat_or_end: `choice` is the index of the menu entry picked and `input` the text
        typed for a new search. A new search lower-cases it and runs search() next; going
        back lists the found articles again; ending sets searchEnd. */
    method RepeatOrEnd(searched: bool, choice: nat, input: string) returns (p: Prompt)
      requires Valid()
      requires choice < |MenuChoices(searched)|
      modifies this`phrase, this`searchEnd
      ensures Valid()
      ensures var selected := MenuChoices(searched)[choice];
              && (selected == NewSearch ==> phrase == lower(input) && searchEnd == old(searchEnd) && p == SearchPhrase)
              && (selected == Back ==> phrase == old(phrase) && searchEnd == old(searchEnd) && p == PickArticle(foundArticles))
              && (selected == End ==> phrase == old(phrase) && searchEnd && p == Idle)
    {
      var choices := MenuChoices(searched);
      var selectedChoice := choices[choice];
      p := Idle;
      if selectedChoice == NewSearch {
        phrase := lower(input);
        p := SearchPhrase;
      }
      if selectedChoice == Back {
        p := PickArticle(foundArticles);
      }
      if selectedChoice == End {
        searchEnd := true;
      }
    }
  }
}
