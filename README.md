# Snippet memory and chat helpers of a PDF question-answering chatbot

This project models the sequential core of a Streamlit chatbot that answers
questions about PDF documents, and proves properties about that model.

**The snippet memory.** `SnippetsBufferWindowMemory.load_memory_variables`
in `langchain_utils.py` keeps a bounded buffer of rendered citation blocks
(`snippets`) and, beside it, their zero-based page numbers (`pages`). On each
question it does the following:

1. Renders every search hit as a block: a citation line, the opening page
   marker, the passage and the closing page marker.
2. Reverses the buffer.
3. Appends each block that the growing buffer does not hold yet.
4. Reverses the buffer back and keeps its first `k` entries (`k = 3`).
5. Returns the kept blocks joined together.

**The chat script helpers.** From `app_chat.py` the project models:

- the duplicate-free URL list (the Add button and `remove_url`);
- the test that decides whether the PDFs must be indexed again;
- the query text built from the last four messages;
- the citations shown under an answer, with the page markers stripped.

Modules:

- `Text`: decimal rendering of page numbers, and Python's `''.join` and
  `sep.join`.
- `Markers`: the page markers, and the two `re.sub` passes that remove them.
  A pass is modelled as a left-to-right scan that removes
  non-overlapping matches.
- `Window`: the merge step of the buffer, stated for any items compared by
  any key. It holds the reference function `Merge`, which is
  `take(k, reverse(U) ++ old)`. Here `U` is the hits, in search order,
  whose block is neither in the old buffer nor the block of an earlier hit
  of the same search.
- `SnippetMemory`: the hit record and the block format. It also holds the
  memory as a class whose fields the method updates in place. One loop
  method appends to `snippets` and `pages` together.
- `ChatApp`: these classes and functions:
  - the URL list class;
  - the index state class, in which the stored URL list is an object
    reference, so aliasing is explicit;
  - the staleness test;
  - the message log and the query history;
  - the citations.

The comments at `langchain_utils.py:32-33` and `:53` say that the most
relevant snippets stay at the start of the buffer. The code puts the last
new hit of the search first, and when more new hits arrive than fit, it drops
the first ones the search returned. The model follows the code. For example,
an empty buffer given hits A, B, C, D keeps D, C, B (`Window.MergeIntoEmpty`).

`download_and_index_pdf` needs the network and can raise. Its outcome is the
`downloadFails` parameter of the index step. A raise ends the turn: the
question appended at `app_chat.py:94` stays in the message log, but no index is
returned. The script stores `indexed_urls` at line 99, before the download at
line 101. As written, this order does no harm. An index is only ever stored
in a run that has just made `indexed_urls` the session's list object. From
then on, the test at line 98 compares the list with itself, and the download
is never reached again (`ChatApp.EnsureIndexAsWritten`). The order matters
once the list is copied. A copy stored before a failed download would sit
beside the old index, and the next question would find the sets equal. So
the corrected step records its copy only after the download succeeds
(`ChatApp.EnsureIndex`). A failed download there changes nothing, and the
next question tries again (`ChatApp.FailedDownloadRetried`).

## Model

| member | source | states |
|---|---|---|
| `SnippetMemory.SnippetsBufferWindowMemory.LoadMemoryVariables` | langchain_utils.py:24-59 | The new block list is `Merge(RenderBlock, old, hits, k)`, that is `take(k, reverse(U) ++ old)`. The pages and the hits the blocks came from follow, index by index. The result is the kept blocks joined with no separator. Blocks and pages stay aligned and at most `k` long, and the blocks are duplicate-free. With `k = 0` both lists are empty and the result is `""`. |
| `SnippetMemory.SnippetsBufferWindowMemory.AppendUnseen` | langchain_utils.py:37-51 | The loop appends exactly the hits whose block is absent from the buffer as it grows. Each appended block is paired with its page. |
| `SnippetMemory.SnippetsBufferWindowMemory.constructor` | langchain_utils.py:15-22 | A new memory holds no blocks and no pages, with the given capacity. |
| `SnippetMemory.InitializeSnippetsMemory` | langchain_utils.py:105-106 | The conversation's snippet memory starts empty with capacity 3. |
| `SnippetMemory.BlockCarriesPage` | langchain_utils.py:40-48 | The first opening marker of a hit's block carries `page + 1`, provided the citation line holds no such marker. |
| `SnippetMemory.BlocksCarryPages` | langchain_utils.py:49-51 | The block and page lists have equal length. Entry `i`'s opening marker carries `pages[i] + 1`. |
| `SnippetMemory.HeaderLine` | langchain_utils.py:41-44 | The citation line is the bare source when the title equals the source, and a Markdown link `[title](source)` otherwise. The function computes it; its properties are in the `RenderBlock` row. |
| `SnippetMemory.RenderBlock` | langchain_utils.py:40-48 | A block is four lines: the citation line, `<START_SNIPPET_PAGE_n>`, the passage and `<END_SNIPPET_PAGE_n>`, where `n` is `page + 1`. The function computes it. `BlockCarriesPage` proves its opening marker reads back `page + 1`. `StripRenderedBlock` proves that stripping it leaves the citation line and passage with no marker. |
| `Text.ParseNatToString` | langchain_utils.py:46-48 | The page number written into a marker in decimal reads back as the same number. |
| `Text.NatToStringInjective` | langchain_utils.py:46-48 | Different pages give different marker numbers. |
| `Text.Concat` | langchain_utils.py:57 | The function computes `''.join`. `ConcatAppend` and `ConcatSplit` state its properties. |
| `Text.ConcatSplit` | langchain_utils.py:57 | In the returned string, each buffer entry stands in its own place, between the earlier and the later entries. |
| `Window.Unseen` | langchain_utils.py:37-51 | The function computes the hits that enter, in search order. `UnseenCover`, `UnseenStep`, `UnseenEmpty` and `UnseenSameMembers` state its properties, and `AppendUnseen`'s loop is proved equal to it. |
| `Window.Merge` | langchain_utils.py:34-56 | The function computes the buffer after one merge, `take(k, reverse(U) ++ old)`. `LoadMemoryVariables` is proved equal to it. `MergeBound`, `MergeNoDup`, `MergeShape` and `MergeNothingNew` state its properties. |
| `Window.Reverse` | langchain_utils.py:34-35 | The function computes `list(reversed(s))`. `ReverseReverse`, `ReverseAppend` and `ReverseMembers` state its properties. |
| `Window.ReverseReverse` | langchain_utils.py:55 | The second reversal undoes the first. |
| `Window.PyPrefix` | langchain_utils.py:55-56 | `s[:k]` is a prefix of `s`. Its length is `min(k, len(s))` for `k >= 0`, and `max(0, len(s) + k)` for a negative `k`. |
| `Window.UnseenCover` | langchain_utils.py:37-51 | The blocks that enter are new to the buffer and pairwise distinct, even when one search repeats a hit. Every block of the search either enters or was already buffered. |
| `Window.UnseenStep` | langchain_utils.py:49-51 | The hit at position `i` is appended exactly when its block is in neither the old buffer nor the part appended so far. |
| `Window.UnseenSnoc` | langchain_utils.py:49-51 | One more hit enters exactly when its key is in neither the old buffer nor the keys already taken. |
| `Window.UnseenEmpty` | langchain_utils.py:37-51 | Nothing enters if and only if every hit's block is already buffered. |
| `Window.UnseenSameMembers` | langchain_utils.py:34-35 | Which hits enter depends only on which blocks are buffered, so the first reversal does not change it. |
| `Window.ReverseAppend` | langchain_utils.py:34-35 | The second reversal of `reverse(old) ++ U` gives `reverse(U) ++ old`, for the blocks, the pages and the hits alike. |
| `Window.MapPrefix` | langchain_utils.py:55-56 | Truncating the hits and then projecting gives the same result as projecting and then truncating, so blocks and pages are cut identically. |
| `Window.MergeBound` | langchain_utils.py:55-56 | After a merge the buffer holds at most `k` entries. It is empty when `k = 0`. |
| `Window.MergeNoDup` | langchain_utils.py:37-56 | A buffer without duplicates has none after a merge. |
| `Window.MergeShape` | langchain_utils.py:34-56 | The merged buffer starts with the entering blocks, last found first, none of them old. After them come the old buffer's first entries in their old order. |
| `Window.MergeNothingNew` | langchain_utils.py:34-56 | When every hit is already buffered, or there are none, the buffer becomes `take(k, old)`. It is unchanged when it fits. |
| `Window.MergeIntoEmpty` | langchain_utils.py:34-56 | An empty buffer of size 3 given distinct hits A, B, C, D becomes D, C, B. |
| `Window.MergeEvictsOldest` | langchain_utils.py:34-56 | A full buffer A, B, C of size 3 given one new hit D becomes D, A, B. |
| `Window.MergeTwiceDiffers` | langchain_utils.py:34-56 | Merging the same four hits twice into an empty buffer gives A, D, C. The second merge changes the buffer. |
| `ChatApp.UrlList.constructor` | app_chat.py:32-33 | The session's URL list starts empty. |
| `ChatApp.UrlList.FromSeq` | app_chat.py:99 | A new list object holds the given URLs. The corrected index step stores this copy instead of the session's list. |
| `ChatApp.AddIfAbsent` | app_chat.py:66-67 | The function computes the list after the Add button. `AddIfAbsentKeepsNoDup` and `AddThenRemove` state its properties. |
| `ChatApp.RemoveFirst` | app_chat.py:42-43 | The function computes the list after `remove_url`. `RemoveFirstCount` and `RemoveFirstNoDup` relate it to the filter `Without`. |
| `ChatApp.UrlList.AddUrl` | app_chat.py:65-67 | The URL is appended only when absent. |
| `ChatApp.UrlList.RemoveUrl` | app_chat.py:38-43 | When present, the first occurrence is deleted; otherwise nothing changes. The loop finds the same index `list.remove` does. |
| `ChatApp.FirstIndex` | app_chat.py:43 | It returns the position of the first occurrence: the URL is there and at no earlier position. |
| `ChatApp.AddIfAbsentKeepsNoDup` | app_chat.py:66-67 | Adding keeps the list duplicate-free. The list afterwards holds exactly the old URLs and the new one. |
| `ChatApp.RemoveFirstCount` | app_chat.py:42-43 | Removal takes out exactly one occurrence, as multisets. Removing an absent URL changes nothing. |
| `ChatApp.RemoveFirstNoDup` | app_chat.py:42-43 | On a duplicate-free list, removal leaves the URL absent and the others in their order. The result is the list filtered of it, and it stays duplicate-free. |
| `ChatApp.WithoutMembers` | app_chat.py:42-43 | The filtered list holds exactly the other URLs. |
| `ChatApp.AddThenRemove` | app_chat.py:38-43 | Removing a URL just added to a list that lacked it restores the list. |
| `ChatApp.NeedsReindex` | app_chat.py:98 | The predicate is the test at line 98: no index yet, or the set of indexed URLs differs from the set of session URLs. `NeedsReindexByMembers` and `NeedsReindexIgnoresOrder` state its properties. |
| `ChatApp.NeedsReindexByMembers` | app_chat.py:98 | A re-index happens if and only if there is no index yet or some URL is in one list and not in the other. |
| `ChatApp.NeedsReindexIgnoresOrder` | app_chat.py:98 | The order and the repetitions of either list do not affect the test. |
| `ChatApp.IndexState.constructor` | app_chat.py:17-21 | The index state starts with no index and an empty stored list. The list is a new object, apart from the session's list. |
| `ChatApp.EnsureIndexAsWritten` | app_chat.py:96-104 | On a rebuild, the stored list becomes the session's list object itself before the download. If the download succeeds, the new index is kept and returned. If it fails, no index is returned and the old index stays. Without a rebuild, the stored index is returned and nothing changes. Whenever an index is stored afterwards, the test finds it current. The step keeps this invariant: whenever an index exists, the stored list is the session's list. Under it, a call made while an index exists returns that index and changes nothing, so no download runs. |
| `ChatApp.EnsureIndex` | app_chat.py:96-104 | This is the index step with the URLs copied into a fresh list on a rebuild. The copy is stored only after a successful download, so a failed download changes nothing. An index is returned if and only if the test afterwards finds it current. The copy is a new `UrlList` built by `UrlList.FromSeq`. The stored list never becomes the session's list object. |
| `ChatApp.AddedUrlIgnoredAsWritten` | app_chat.py:97-99 | As written, a URL added after the first question causes no re-index. The index searched next does not cover that URL. |
| `ChatApp.AddedUrlReindexes` | app_chat.py:96-102 | With the copy, the added URL triggers a re-index on the next question. The new index covers both URLs. |
| `ChatApp.FailedDownloadRetried` | app_chat.py:96-102 | With the corrected step, a failed download for an added URL returns no index. The next question re-indexes both URLs. |
| `ChatApp.PySuffix` | app_chat.py:115 | `s[-n:]` is a suffix of `s` of length `min(n, len(s))`, and the whole list for `n = 0`. |
| `ChatApp.UserContents` | app_chat.py:115 | The function computes the contents of the user messages, in order. `UserContentsMembers` states its properties. |
| `ChatApp.UserMessagesHistory` | app_chat.py:114-116 | The function computes the query text: the user texts among the last four messages, joined by newlines. `HistoryWindow` and `HistoryEndsWithQuery` state its properties. |
| `ChatApp.UserContentsMembers` | app_chat.py:115 | A text is kept exactly when some user message carries it. |
| `ChatApp.HistoryWindow` | app_chat.py:114-116 | The query history holds at most four texts. Each comes from a user message among the last four messages. |
| `ChatApp.HistoryEndsWithQuery` | app_chat.py:94-116 | Once the question is appended as a user message, the query history ends with it. |
| `Text.JoinWith` | app_chat.py:116 | The function computes `sep.join`. |
| `Text.JoinWithEndsWithLast` | app_chat.py:116 | A newline join ends with its last element. |
| `ChatApp.MessageLog.constructor` | app_chat.py:28-29 | The chat history starts empty. |
| `ChatApp.MessageLog.Ask` | app_chat.py:94-116 | The question is stored as a user message. The returned query history is that of the new log, and it ends with the question. |
| `ChatApp.MessageLog.Answer` | app_chat.py:135 | The answer is stored as an assistant message. |
| `ChatApp.PageLabel` | app_chat.py:128 | The title is `Snippet from page ` followed by digits that read back as `page + 1`. |
| `ChatApp.Citations` | app_chat.py:127-132 | There is one citation per pair of `zip(pages, snippets)`, as many as the shorter list. Citation `i` is titled `Snippet from page pages[i] + 1` and shows `> ` followed by the stripped snippet. |
| `Markers.RemoveMarkers` | app_chat.py:130-131 | The function computes one `re.sub(tag + "\d+>", '', s)` pass. `RemoveMarkersIdentity`, `OwnMarkerRemoved`, `OtherMarkerKept` and `RemoveMarkersNewline` state its properties. |
| `Markers.StripSnippet` | app_chat.py:130-131 | The function computes the two passes, START first and then END. `StripRenderedBlock` states what they leave of a block. |
| `Markers.MatchAtExact` | app_chat.py:130-131 | The scan matches the pattern exactly: tag, one or more digits, `>`. |
| `Markers.RemoveMarkersIdentity` | app_chat.py:130-131 | A pass leaves a text unchanged if and only if the text holds no marker. |
| `Markers.RemoveMarkersNewline` | app_chat.py:130-131 | No match crosses a newline, so each side is cleaned on its own. |
| `Markers.OwnMarkerRemoved` | app_chat.py:130-131 | A pass deletes any whole marker of its own kind, whatever digits it carries, leading zeros included. |
| `Markers.WrittenMarkerIsMarker` | langchain_utils.py:46-48 | The markers a block writes are matches of the pattern. |
| `Markers.OtherMarkerKept` | app_chat.py:130-131 | A pass keeps any marker of the other kind, whatever digits it carries. |
| `Markers.FirstMarkerOfMarker` | langchain_utils.py:46 | The number read from an opening marker is the number written into it. |
| `SnippetMemory.StripRenderedBlock` | app_chat.py:129-132 | Take a block built from a hit whose citation line and passage hold no markers. Stripping it gives `header + "\n" + content + "\n\n"`, and no marker of either kind is left. |
| `ChatApp.CitationOfHit` | app_chat.py:128-132 | A buffer entry's citation is titled with the number its own opening marker carries, which is the hit's page plus one, and it shows the hit's quoted text. |
| `ChatApp.CitationsOfBuffer` | app_chat.py:126-132 | A buffer built from clean hits gives one citation per entry, each the citation of its entry. |

## Left out

- The Streamlit user interface is not modelled: page set-up, forms, buttons, containers, spinners, chat bubbles and expanders. Only the data they show and change is modelled.
- File I/O is not modelled: `save_urls_to_file`, the `urls.txt` load block (dead code, since `urls` is already set at lines 32-33) and the append to `response.txt`.
- `search_indexing` is not part of this model. The search at `langchain_utils.py:31` becomes the `similarSnippets` parameter, and the memory's `index` field is dropped. `download_and_index_pdf` is replaced by `DownloadAndIndex`, which stands for an index identified by the URL list it was built from. Whether the download raises is the `downloadFails` parameter. The model does not say which exception it is or what Streamlit shows for it.
- The LangChain and OpenAI wiring is not modelled: `construct_conversation`, `initialize_chat_conversation`, `ChatOpenAI`, `ConversationChain`, `PromptTemplate`, `CombinedMemory`, `conversation.predict` and the prompt text. This wiring calls `load_memory_variables` inside `predict`. It also builds the conversation once, with the first index (`app_chat.py:107-111`), so an index rebuilt later is never searched. The model does not show this.
- `ConversationBufferWindowMemory` (the last three turns) is not modelled, because its behaviour lives in the library.
- `load_memory_variables` returns the dictionary `{'snippets': ...}`; the model returns the string alone.
- The `re.sub` passes are modelled with `\d` as the ASCII digits only. Python's `\d` also matches other Unicode decimal digits. The marker numbers written at `langchain_utils.py:46-48` are ASCII.
- Page numbers are modelled as `nat`; the source does not check that `metadata['page']` is non-negative.
- The class-level list defaults of the memory (`pages: list = []`, `snippets: list = []`) are modelled as the constructor's empty lists. Sharing between instances is not modelled.

## Findings

| source | as written | input that shows it | evidently intended | confidence | as-written member | corrected member |
|---|---|---|---|---|---|---|
| app_chat.py:99 | A rebuild stores the session's URL list object itself as `indexed_urls`. Later appends and removals change both names, so the set test at line 98 always finds them equal. | URLs `[a]`, a first question, then add `b` and ask again: no re-index happens and `b` is never indexed. | On a question after the URL list changed, the PDFs are indexed again, as the comment at line 96 says. | medium (not executed) | `ChatApp.AddedUrlIgnoredAsWritten` | `ChatApp.AddedUrlReindexes` |
