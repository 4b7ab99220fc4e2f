/**
 * The sequential logic of the chat script, lifted out of the user interface:
 * the duplicate-free list of PDF URLs, the test that decides whether the
 * PDFs must be indexed again, the window of recent user messages the search
 * runs on, and the citations shown under each answer.
 */
module ChatApp {
  import opened Text
  import opened Markers
  import opened Window
  import opened SnippetMemory

  // ---------------------------------------------------------------------
  // The URL list
  // ---------------------------------------------------------------------

  /** The list after the Add button: the URL is appended only when absent. */
  function AddIfAbsent(s: seq<string>, u: string): seq<string> {
    if u in s then s else s + [u]
  }

  /** The index of the first occurrence of `u`, where `list.remove` deletes. */
  function FirstIndex(s: seq<string>, u: string): (i: nat)
    requires u in s
    ensures i < |s| && s[i] == u && u !in s[..i]
  {
    if s[0] == u then 0
    else
      assert u in s[1..];
      1 + FirstIndex(s[1..], u)
  }

  /** `list.remove(u)` guarded by `u in list`: the first occurrence goes, if any. */
  function RemoveFirst(s: seq<string>, u: string): seq<string> {
    if u in s then s[..FirstIndex(s, u)] + s[FirstIndex(s, u) + 1..] else s
  }

  /** Every element except `u`, in order: the reference for removal. */
  function Without(s: seq<string>, u: string): seq<string> {
    if s == [] then []
    else (if s[0] == u then [] else [s[0]]) + Without(s[1..], u)
  }

  class UrlList {
    var items: seq<string>

    constructor ()
      ensures items == []
    {
      items := [];
    }

    constructor FromSeq(s: seq<string>)
      ensures items == s
    {
      items := s;
    }

    method AddUrl(url: string)
      modifies this
      ensures items == AddIfAbsent(old(items), url)
    {
      if url !in items {
        items := items + [url];
      }
    }

    /** `remove_url`: the membership test, then the scan of `list.remove`. */
    method RemoveUrl(url: string)
      modifies this
      ensures items == RemoveFirst(old(items), url)
    {
      if url in items {
        var i := 0;
        while items[i] != url
          invariant 0 <= i < |items|
          invariant url !in items[..i]
          invariant url in items[i..]
          decreases |items| - i
        {
          assert items[i..] == [items[i]] + items[i + 1..];
          assert items[..i + 1] == items[..i] + [items[i]];
          i := i + 1;
        }
        FirstIndexUnique(items, url, i);
        items := items[..i] + items[i + 1..];
      }
    }
  }

  lemma FirstIndexUnique(s: seq<string>, u: string, i: nat)
    requires i < |s| && s[i] == u && u !in s[..i]
    ensures FirstIndex(s, u) == i
  {
    var j := FirstIndex(s, u);
    forall k | 0 <= k < i
      ensures s[k] != u
    {
      assert s[..i][k] == s[k];
    }
    forall k | 0 <= k < j
      ensures s[k] != u
    {
      assert s[..j][k] == s[k];
    }
  }

  /** Adding keeps the list duplicate-free, and the URL is in the list afterwards. */
  lemma AddIfAbsentKeepsNoDup(s: seq<string>, u: string)
    requires NoDup(s)
    ensures NoDup(AddIfAbsent(s, u))
    ensures forall x :: x in AddIfAbsent(s, u) <==> x in s || x == u
    ensures u in s ==> AddIfAbsent(s, u) == s
  {
  }

  lemma {:induction false} WithoutAbsent(s: seq<string>, u: string)
    requires u !in s
    ensures Without(s, u) == s
  {
    if s != [] {
      assert u !in s[1..];
      WithoutAbsent(s[1..], u);
      assert s == [s[0]] + s[1..];
    }
  }

  lemma {:induction false} WithoutAppend(a: seq<string>, b: seq<string>, u: string)
    ensures Without(a + b, u) == Without(a, u) + Without(b, u)
  {
    if a == [] {
      assert a + b == b;
    } else {
      assert (a + b)[0] == a[0] && (a + b)[1..] == a[1..] + b;
      WithoutAppend(a[1..], b, u);
    }
  }

  /**
   * Removal deletes exactly one occurrence when the URL is present and
   * changes nothing otherwise.
   */
  lemma RemoveFirstCount(s: seq<string>, u: string)
    ensures multiset(RemoveFirst(s, u)) == multiset(s) - multiset{u}
    ensures u !in s ==> RemoveFirst(s, u) == s
  {
    if u in s {
      var i := FirstIndex(s, u);
      assert s == s[..i] + [u] + s[i + 1..];
    }
  }

  /**
   * On a duplicate-free list, removal leaves the URL absent and every other
   * URL in its order: it is the list without that URL.
   */
  lemma RemoveFirstNoDup(s: seq<string>, u: string)
    requires NoDup(s)
    ensures RemoveFirst(s, u) == Without(s, u)
    ensures u !in RemoveFirst(s, u)
    ensures NoDup(RemoveFirst(s, u))
  {
    RemoveFirstIsWithout(s, u);
    WithoutMembers(s, u);
    WithoutNoDup(s, u);
  }

  lemma RemoveFirstIsWithout(s: seq<string>, u: string)
    requires NoDup(s)
    ensures RemoveFirst(s, u) == Without(s, u)
  {
    if u in s {
      var i := FirstIndex(s, u);
      var front, back := s[..i], s[i + 1..];
      assert s == front + [u] + back;
      assert u !in back by {
        forall j | 0 <= j < |back|
          ensures back[j] != u
        {
          assert back[j] == s[i + 1 + j];
        }
      }
      WithoutAroundOne(front, back, u);
    } else {
      WithoutAbsent(s, u);
    }
  }

  lemma WithoutAroundOne(front: seq<string>, back: seq<string>, u: string)
    requires u !in front && u !in back
    ensures Without(front + [u] + back, u) == front + back
  {
    var fu := front + [u];
    assert Without(fu, u) == front by {
      WithoutAppend(front, [u], u);
      WithoutAbsent(front, u);
      assert Without([u], u) == [];
    }
    assert Without(back, u) == back by {
      WithoutAbsent(back, u);
    }
    WithoutAppend(fu, back, u);
  }

  lemma {:induction false} WithoutMembers(s: seq<string>, u: string)
    ensures forall x :: x in Without(s, u) <==> x in s && x != u
  {
    if s != [] {
      WithoutMembers(s[1..], u);
      assert s == [s[0]] + s[1..];
    }
  }

  lemma {:induction false} WithoutNoDup(s: seq<string>, u: string)
    requires NoDup(s)
    ensures NoDup(Without(s, u))
  {
    if s != [] {
      var rest := s[1..];
      assert NoDup(rest) by {
        forall i, j | 0 <= i < j < |rest|
          ensures rest[i] != rest[j]
        {
          assert rest[i] == s[i + 1] && rest[j] == s[j + 1];
        }
      }
      assert s[0] !in rest by {
        forall j | 0 <= j < |rest|
          ensures rest[j] != s[0]
        {
          assert rest[j] == s[j + 1];
        }
      }
      WithoutNoDup(rest, u);
      WithoutMembers(rest, u);
      var head: seq<string> := if s[0] == u then [] else [s[0]];
      DisjointNoDup(head, Without(rest, u));
    }
  }

  /** Removing a URL just added to a list that lacked it restores the list. */
  lemma AddThenRemove(s: seq<string>, u: string)
    requires u !in s
    ensures RemoveFirst(AddIfAbsent(s, u), u) == s
  {
    var t := s + [u];
    assert t[..|s|] == s;
    FirstIndexUnique(t, u, |s|);
  }

  // ---------------------------------------------------------------------
  // The index and its staleness test
  // ---------------------------------------------------------------------

  /** A vector index, identified by the URL list it was built from. */
  datatype FaissIndex = FaissIndex(sources: seq<string>)

  /** The index built from the PDFs at `urls`, when their download succeeds. */
  function DownloadAndIndex(urls: seq<string>): FaissIndex {
    FaissIndex(urls)
  }

  function UrlSet(s: seq<string>): set<string> {
    set x | x in s
  }

  /** The test of the chat script: no index yet, or the URL sets differ. */
  predicate NeedsReindex(index: Option<FaissIndex>, indexedUrls: seq<string>, urls: seq<string>) {
    index.None? || UrlSet(indexedUrls) != UrlSet(urls)
  }

  /** The test compares memberships only: some URL is in one list and not the other. */
  lemma NeedsReindexByMembers(index: Option<FaissIndex>, indexedUrls: seq<string>, urls: seq<string>)
    ensures NeedsReindex(index, indexedUrls, urls) <==>
      index.None? || exists x :: (x in indexedUrls) != (x in urls)
  {
    if UrlSet(indexedUrls) != UrlSet(urls) {
      var x :| (x in UrlSet(indexedUrls)) != (x in UrlSet(urls));
      assert (x in indexedUrls) != (x in urls);
    }
    if exists x :: (x in indexedUrls) != (x in urls) {
      var x :| (x in indexedUrls) != (x in urls);
      assert (x in UrlSet(indexedUrls)) != (x in UrlSet(urls));
    }
  }

  /** Order and repetitions in either list do not affect the test. */
  lemma NeedsReindexIgnoresOrder(index: Option<FaissIndex>, a1: seq<string>, a2: seq<string>, b1: seq<string>, b2: seq<string>)
    requires forall x :: x in a1 <==> x in a2
    requires forall x :: x in b1 <==> x in b2
    ensures NeedsReindex(index, a1, b1) == NeedsReindex(index, a2, b2)
  {
    assert UrlSet(a1) == UrlSet(a2);
    assert UrlSet(b1) == UrlSet(b2);
  }

  /** `st.session_state['faiss_index']`: the URLs last indexed and the index. */
  class IndexState {
    var indexedUrls: UrlList
    var index: Option<FaissIndex>

    constructor ()
      ensures index == None && fresh(indexedUrls) && indexedUrls.items == []
    {
      indexedUrls := new UrlList();
      index := None;
    }
  }

  /**
   * The index step of the chat script as written. On a rebuild it first
   * stores the session's URL list object itself, so the two names share one
   * list, and then downloads. `downloadFails` is the outcome of the download:
   * when it raises, the rest of the turn does not run and no index is
   * returned, but the stored list stays. Once an index exists, the stored
   * list is the session's list, so the step never rebuilds again and the
   * download is never reached.
   */
  method EnsureIndexAsWritten(state: IndexState, urls: UrlList, downloadFails: bool) returns (faissIndex: Option<FaissIndex>)
    modifies state
    ensures if NeedsReindex(old(state.index), old(state.indexedUrls.items), urls.items) then
        state.indexedUrls == urls &&
        (if downloadFails then faissIndex == None && state.index == old(state.index)
         else faissIndex == Some(DownloadAndIndex(urls.items)) && state.index == faissIndex)
      else
        state.indexedUrls == old(state.indexedUrls) && state.index == old(state.index) &&
        faissIndex == state.index && faissIndex.Some?
    ensures state.index.Some? ==> !NeedsReindex(state.index, state.indexedUrls.items, urls.items)
    ensures old(state.index.Some? ==> state.indexedUrls == urls) ==>
      (state.index.Some? ==> state.indexedUrls == urls)
    ensures old(state.index.Some? && state.indexedUrls == urls) ==>
      state.indexedUrls == urls && state.index == old(state.index) && faissIndex == state.index
  {
    var sessionUrls := urls;
    if NeedsReindex(state.index, state.indexedUrls.items, sessionUrls.items) {
      state.indexedUrls := sessionUrls;
      if downloadFails {
        faissIndex := None;
      } else {
        var built := DownloadAndIndex(sessionUrls.items);
        state.index := Some(built);
        faissIndex := state.index;
      }
    } else {
      faissIndex := state.index;
    }
  }

  /**
   * The index step with the URLs copied on a rebuild, so that later changes
   * to the session's list are seen by the next test. The copy is stored only
   * once the download has succeeded, so a failed download leaves the state as
   * it was and the next question tries again.
   */
  method EnsureIndex(state: IndexState, urls: UrlList, downloadFails: bool) returns (faissIndex: Option<FaissIndex>)
    modifies state
    ensures if NeedsReindex(old(state.index), old(state.indexedUrls.items), urls.items) then
        if downloadFails then
          faissIndex == None &&
          state.indexedUrls == old(state.indexedUrls) && state.index == old(state.index)
        else
          fresh(state.indexedUrls) && state.indexedUrls.items == urls.items &&
          faissIndex == Some(DownloadAndIndex(urls.items)) && state.index == faissIndex
      else
        state.indexedUrls == old(state.indexedUrls) && state.index == old(state.index) &&
        faissIndex == state.index && faissIndex.Some?
    ensures faissIndex.Some? <==> !NeedsReindex(state.index, state.indexedUrls.items, urls.items)
    ensures state.indexedUrls != urls || old(state.indexedUrls) == urls
  {
    var sessionUrls := urls;
    if NeedsReindex(state.index, state.indexedUrls.items, sessionUrls.items) {
      if downloadFails {
        faissIndex := None;
      } else {
        var built := DownloadAndIndex(sessionUrls.items);
        state.indexedUrls := new UrlList.FromSeq(sessionUrls.items);
        state.index := Some(built);
        faissIndex := state.index;
      }
    } else {
      faissIndex := state.index;
    }
  }

  /**
   * With the script as written, a URL added after the first question is
   * never indexed: the stored list is the session's list, so the sets agree.
   */
  method AddedUrlIgnoredAsWritten(first: string, second: string) returns (reindexed: bool, searched: Option<FaissIndex>)
    requires first != second
    ensures !reindexed
    ensures searched.Some? && second !in searched.value.sources
  {
    var urls := new UrlList();
    urls.AddUrl(first);
    var state := new IndexState();
    var built := EnsureIndexAsWritten(state, urls, false);
    urls.AddUrl(second);
    reindexed := NeedsReindex(state.index, state.indexedUrls.items, urls.items);
    searched := EnsureIndexAsWritten(state, urls, false);
  }

  /** With the URLs copied, the added URL makes the next question index again. */
  method AddedUrlReindexes(first: string, second: string) returns (reindexed: bool, searched: Option<FaissIndex>)
    requires first != second
    ensures reindexed
    ensures searched == Some(FaissIndex([first, second]))
  {
    var urls := new UrlList();
    urls.AddUrl(first);
    var state := new IndexState();
    var built := EnsureIndex(state, urls, false);
    urls.AddUrl(second);
    reindexed := NeedsReindex(state.index, state.indexedUrls.items, urls.items);
    assert second in UrlSet(urls.items) && second !in UrlSet(state.indexedUrls.items);
    assert urls.items == [first, second];
    searched := EnsureIndex(state, urls, false);
  }

  /**
   * With the URLs copied after a successful download, a download that fails
   * for an added URL is retried on the next question, which indexes both.
   */
  method FailedDownloadRetried(first: string, second: string) returns (failed: Option<FaissIndex>, retried: bool, searched: Option<FaissIndex>)
    requires first != second
    ensures failed == None && retried
    ensures searched == Some(FaissIndex([first, second]))
  {
    var urls := new UrlList();
    urls.AddUrl(first);
    var state := new IndexState();
    var built := EnsureIndex(state, urls, false);
    urls.AddUrl(second);
    assert second in UrlSet(urls.items) && second !in UrlSet(state.indexedUrls.items);
    failed := EnsureIndex(state, urls, true);
    retried := NeedsReindex(state.index, state.indexedUrls.items, urls.items);
    assert urls.items == [first, second];
    searched := EnsureIndex(state, urls, false);
  }

  // ---------------------------------------------------------------------
  // The query history
  // ---------------------------------------------------------------------

  datatype Role = User | Assistant

  datatype Message = Message(role: Role, content: string)

  /** How many of the latest messages the search query is built from. */
  const SearchNumberMessages := 4

  /** Python's slice `s[-n:]`: the last `n` elements; `s[-0:]` is the whole list. */
  function PySuffix<T>(s: seq<T>, n: nat): (r: seq<T>)
    ensures |r| <= |s| && r == s[|s| - |r|..]
    ensures n > 0 ==> |r| == if n < |s| then n else |s|
    ensures n == 0 ==> r == s
  {
    if n == 0 || |s| <= n then s else s[|s| - n..]
  }

  /** The contents of the user messages, in order. */
  function UserContents(ms: seq<Message>): seq<string> {
    if ms == [] then []
    else (if ms[0].role == User then [ms[0].content] else []) + UserContents(ms[1..])
  }

  /** The text the snippets are searched with. */
  function UserMessagesHistory(ms: seq<Message>): string {
    JoinWith("\n", UserContents(PySuffix(ms, SearchNumberMessages)))
  }

  lemma {:induction false} UserContentsAppend(a: seq<Message>, b: seq<Message>)
    ensures UserContents(a + b) == UserContents(a) + UserContents(b)
  {
    if a == [] {
      assert a + b == b;
    } else {
      assert (a + b)[0] == a[0] && (a + b)[1..] == a[1..] + b;
      UserContentsAppend(a[1..], b);
    }
  }

  /** A text is kept exactly when a user message carries it; there are no more of them than messages. */
  lemma {:induction false} UserContentsMembers(ms: seq<Message>)
    ensures |UserContents(ms)| <= |ms|
    ensures forall c :: c in UserContents(ms) <==> Message(User, c) in ms
  {
    if ms != [] {
      UserContentsMembers(ms[1..]);
      assert ms == [ms[0]] + ms[1..];
    }
  }

  /**
   * The history holds at most the last four messages' texts, each from a
   * user message among the last four.
   */
  lemma HistoryWindow(ms: seq<Message>)
    ensures var w := PySuffix(ms, SearchNumberMessages);
      |UserContents(w)| <= SearchNumberMessages &&
      forall c :: c in UserContents(w) ==>
        exists i :: |ms| - SearchNumberMessages <= i < |ms| && 0 <= i && ms[i] == Message(User, c)
  {
    var w := PySuffix(ms, SearchNumberMessages);
    UserContentsMembers(w);
    forall c | c in UserContents(w)
      ensures exists i :: |ms| - SearchNumberMessages <= i < |ms| && 0 <= i && ms[i] == Message(User, c)
    {
      var j :| 0 <= j < |w| && w[j] == Message(User, c);
      var i := |ms| - |w| + j;
      assert ms[i] == w[j];
    }
  }

  /** Once the question is appended as a user message, the history ends with it. */
  lemma HistoryEndsWithQuery(ms: seq<Message>, query: string)
    ensures EndsWith(UserMessagesHistory(ms + [Message(User, query)]), query)
  {
    var m := Message(User, query);
    var w := PySuffix(ms + [m], SearchNumberMessages);
    assert w == w[..|w| - 1] + [m];
    UserContentsAppend(w[..|w| - 1], [m]);
    assert UserContents([m]) == [query] by {
      assert [m][1..] == [];
    }
    JoinWithEndsWithLast("\n", UserContents(w));
  }

  /** `st.session_state.messages`: the chat history. */
  class MessageLog {
    var messages: seq<Message>

    constructor ()
      ensures messages == []
    {
      messages := [];
    }

    /**
     * A question: it is stored as a user message, and the query text the
     * snippets are searched with is built, ending with the question.
     */
    method Ask(query: string) returns (history: string)
      modifies this
      ensures messages == old(messages) + [Message(User, query)]
      ensures history == UserMessagesHistory(messages)
      ensures EndsWith(history, query)
    {
      HistoryEndsWithQuery(messages, query);
      messages := messages + [Message(User, query)];
      history := UserMessagesHistory(messages);
    }

    /** The answer is stored as an assistant message. */
    method Answer(response: string)
      modifies this
      ensures messages == old(messages) + [Message(Assistant, response)]
    {
      messages := messages + [Message(Assistant, response)];
    }
  }

  // ---------------------------------------------------------------------
  // The citations under an answer
  // ---------------------------------------------------------------------

  /** An expander: its title and its Markdown body. */
  datatype Citation = Citation(title: string, body: string)

  /** The expander title of a zero-based page: the one-based page number reads back from it. */
  function PageLabel(page: nat): (t: string)
    ensures |t| > 18 && t[..18] == "Snippet from page "
    ensures AllDigits(t[18..]) && ParseNat(t[18..]) == page + 1
  {
    ParseNatToString(page + 1);
    "Snippet from page " + NatToString(page + 1)
  }

  /** `zip(pages, snippets)`: one citation per pair, the snippet stripped and quoted. */
  function Citations(pages: seq<nat>, snippets: seq<string>): (cs: seq<Citation>)
    ensures |cs| == if |pages| < |snippets| then |pages| else |snippets|
    ensures forall i :: 0 <= i < |cs| ==>
      cs[i] == Citation(PageLabel(pages[i]), "> " + StripSnippet(snippets[i]))
  {
    if pages == [] || snippets == [] then []
    else [Citation(PageLabel(pages[0]), "> " + StripSnippet(snippets[0]))] + Citations(pages[1..], snippets[1..])
  }

  /** The text an expander shows for a hit: its citation line and passage, quoted. */
  function QuotedHit(h: Hit): string {
    "> " + (Header(h) + "\n" + h.pageContent + "\n\n")
  }

  /**
   * Citation `c` is the one for buffer entry `b` rendered from hit `h`: it is
   * titled with the number the entry's own opening marker carries, which is
   * the hit's page plus one, and shows the hit without markers.
   */
  predicate CitesHit(h: Hit, b: string, c: Citation) {
    CarriesPage(b, h.page) &&
    c.title == "Snippet from page " + NatToString(FirstMarkerNumber(b, StartTag).value) &&
    c.body == QuotedHit(h)
  }

  lemma CitationOfHit(h: Hit, b: string, c: Citation)
    requires CleanHit(h)
    requires b == RenderBlock(h) && c == Citation(PageLabel(h.page), "> " + StripSnippet(b))
    ensures CitesHit(h, b, c)
  {
    BlockCarriesPage(h);
    assert FirstMarkerNumber(b, StartTag).value == h.page + 1;
    assert c.title == "Snippet from page " + NatToString(h.page + 1);
    StripRenderedBlock(h);
    assert c.body == QuotedHit(h);
  }

  /**
   * The citations of a snippet buffer built from clean hits: one per entry,
   * each the citation of its entry.
   */
  lemma CitationsOfBuffer(hs: seq<Hit>)
    requires forall h :: h in hs ==> CleanHit(h)
    ensures var cs := Citations(Pages(hs), Blocks(hs));
      |cs| == |hs| && forall i :: 0 <= i < |hs| ==> CitesHit(hs[i], Blocks(hs)[i], cs[i])
  {
    var cs := Citations(Pages(hs), Blocks(hs));
    forall i | 0 <= i < |hs|
      ensures CitesHit(hs[i], Blocks(hs)[i], cs[i])
    {
      var h := hs[i];
      assert h in hs;
      var b, p, c := Blocks(hs)[i], Pages(hs)[i], cs[i];
      assert b == RenderBlock(h);
      assert p == PageOf(h) == h.page;
      assert c == Citation(PageLabel(p), "> " + StripSnippet(b));
      CitationOfHit(h, b, c);
    }
  }
}
