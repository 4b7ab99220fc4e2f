/**
 * The snippet memory of the conversation: a bounded buffer of rendered
 * citation blocks and their zero-based page numbers. Each turn merges the
 * hits of a similarity search into it by reversing the buffer, appending the
 * blocks it does not hold yet, reversing back and keeping the first `k`; the
 * merge itself, over any key, is the one of module Window, with a hit's
 * rendered block as its key.
 */
module SnippetMemory {
  import opened Text
  import opened Markers
  import opened Window

  /** One search hit: the metadata `source`, `title` and zero-based `page`, and the passage text. */
  datatype Hit = Hit(source: string, title: string, page: nat, pageContent: string)

  /** The buffer size the conversation is built with (`prompt_number_snippets`). */
  const PromptNumberSnippets := 3

  /** The citation line without its newline: the bare source, or a Markdown link. */
  function HeaderLine(h: Hit): string {
    if h.title == h.source then h.source else "[" + h.title + "](" + h.source + ")"
  }

  function Header(h: Hit): string {
    HeaderLine(h) + "\n"
  }

  /** The text a hit is stored and compared as. */
  function RenderBlock(h: Hit): string {
    Header(h) + StartMarker(h.page + 1) + "\n" + h.pageContent + "\n" + EndMarker(h.page + 1) + "\n"
  }

  function PageOf(h: Hit): nat {
    h.page
  }

  function Blocks(hs: seq<Hit>): seq<string> {
    Map(RenderBlock, hs)
  }

  function Pages(hs: seq<Hit>): seq<nat> {
    Map(PageOf, hs)
  }

  class SnippetsBufferWindowMemory {
    const k: int
    var snippets: seq<string>
    var pages: seq<nat>
    /** The hits the buffer entries were rendered from, index by index. */
    ghost var hits: seq<Hit>

    ghost predicate Valid()
      reads this
    {
      snippets == Blocks(hits) && pages == Pages(hits) &&
      NoDup(snippets) && (k >= 0 ==> |snippets| <= k)
    }

    constructor (k: int)
      ensures Valid() && this.k == k
      ensures snippets == [] && pages == [] && hits == []
    {
      this.k := k;
      snippets, pages, hits := [], [], [];
    }

    /**
     * Merges the hits of this turn's search, given in search order, into the
     * buffer and returns the concatenated blocks. The new buffer is the
     * merge of module Window; the pages follow the blocks they belong to.
     */
    method LoadMemoryVariables(similarSnippets: seq<Hit>) returns (toReturn: string)
      requires Valid()
      modifies this
      ensures Valid()
      ensures snippets == Merge(RenderBlock, old(snippets), similarSnippets, k)
      ensures hits == PyPrefix(Reverse(Unseen(RenderBlock, old(snippets), similarSnippets)) + old(hits), k)
      ensures pages == PyPrefix(Reverse(Pages(Unseen(RenderBlock, old(snippets), similarSnippets))) + old(pages), k)
      ensures toReturn == Concat(snippets)
      ensures k == 0 ==> snippets == [] && pages == [] && toReturn == ""
    {
      ghost var seenHits := hits;
      ghost var prev := snippets;
      snippets := Reverse(snippets);
      pages := Reverse(pages);
      hits := Reverse(hits);
      MapReverse(RenderBlock, seenHits);
      MapReverse(PageOf, seenHits);
      ghost var reversed := snippets;
      AppendUnseen(similarSnippets);
      ghost var u := Unseen(RenderBlock, prev, similarSnippets);
      ReverseMembers(prev);
      UnseenSameMembers(RenderBlock, reversed, prev, similarSnippets);
      ghost var mid := hits;
      assert mid == Reverse(seenHits) + u;
      ReverseAppend(RenderBlock, seenHits, u);
      ReverseAppend(PageOf, seenHits, u);
      MapReverse(RenderBlock, mid);
      MapReverse(PageOf, mid);
      MapPrefix(RenderBlock, Reverse(mid), k);
      MapPrefix(PageOf, Reverse(mid), k);
      MergeNoDup(RenderBlock, prev, similarSnippets, k);
      snippets := PyPrefix(Reverse(snippets), k);
      pages := PyPrefix(Reverse(pages), k);
      hits := PyPrefix(Reverse(hits), k);
      toReturn := Concat(snippets);
    }

    /**
     * The loop of the merge: appends, in search order, the block and page of
     * every hit whose block the buffer does not hold yet, testing each hit
     * against the buffer as it grows.
     */
    method AppendUnseen(similarSnippets: seq<Hit>)
      requires snippets == Blocks(hits) && pages == Pages(hits)
      modifies this
      ensures hits == old(hits) + Unseen(RenderBlock, old(snippets), similarSnippets)
      ensures snippets == Blocks(hits) && pages == Pages(hits)
    {
      ghost var seen, seenPages, seenHits := snippets, pages, hits;
      var i := 0;
      ghost var u: seq<Hit> := [];
      while i < |similarSnippets|
        invariant 0 <= i <= |similarSnippets|
        invariant u == Unseen(RenderBlock, seen, similarSnippets[..i])
        invariant hits == seenHits + u
        invariant snippets == seen + Blocks(u)
        invariant pages == seenPages + Pages(u)
      {
        var snippet := similarSnippets[i];
        var pageNumber := snippet.page;
        var snippetToAdd := RenderBlock(snippet);
        UnseenStep(RenderBlock, seen, similarSnippets, i);
        if snippetToAdd !in snippets {
          MapSnoc(RenderBlock, seen, u, snippet);
          MapSnoc(PageOf, seenPages, u, snippet);
          assert PageOf(snippet) == pageNumber;
          pages := pages + [pageNumber];
          snippets := snippets + [snippetToAdd];
          hits := hits + [snippet];
          u := u + [snippet];
        }
        i := i + 1;
      }
      assert similarSnippets[..i] == similarSnippets;
      MapAppend(RenderBlock, seenHits, u);
      MapAppend(PageOf, seenHits, u);
    }
  }

  /** The snippet memory the conversation is built with: empty, holding at most three blocks. */
  method InitializeSnippetsMemory() returns (m: SnippetsBufferWindowMemory)
    ensures fresh(m) && m.Valid()
    ensures m.k == PromptNumberSnippets == 3
    ensures m.snippets == [] && m.pages == []
  {
    m := new SnippetsBufferWindowMemory(PromptNumberSnippets);
  }

  /** Entry `b` opens with the marker of page `p + 1`: its first marker carries that number. */
  predicate CarriesPage(b: string, p: nat) {
    FirstMarkerNumber(b, StartTag) == Some(p + 1)
  }

  /**
   * The page of every buffer entry is written into the entry's opening
   * marker as `page + 1`, provided the citation line holds no marker itself.
   */
  lemma BlocksCarryPages(hs: seq<Hit>)
    requires forall h :: h in hs ==> !HasMarker(HeaderLine(h), StartTag)
    ensures |Blocks(hs)| == |Pages(hs)| == |hs|
    ensures forall i :: 0 <= i < |hs| ==> CarriesPage(Blocks(hs)[i], Pages(hs)[i])
  {
    forall i | 0 <= i < |hs|
      ensures CarriesPage(Blocks(hs)[i], Pages(hs)[i])
    {
      var h := hs[i];
      assert h in hs;
      var b, p := Blocks(hs)[i], Pages(hs)[i];
      assert b == RenderBlock(h);
      assert p == PageOf(h) == h.page;
      BlockCarriesPage(h);
    }
  }

  lemma BlockCarriesPage(h: Hit)
    requires !HasMarker(HeaderLine(h), StartTag)
    ensures CarriesPage(RenderBlock(h), h.page)
  {
    SourceTags();
    var n := h.page + 1;
    var rest := "\n" + h.pageContent + "\n" + EndMarker(n) + "\n";
    var tail := StartTag + NatToString(n) + ">" + rest;
    assert RenderBlock(h) == HeaderLine(h) + "\n" + tail;
    FirstMarkerNewline(HeaderLine(h), tail, StartTag);
    FirstMarkerOfMarker(n, StartTag, rest);
  }

  /** Neither the citation line nor the passage holds a page marker of either kind. */
  predicate CleanHit(h: Hit) {
    !HasMarker(HeaderLine(h), StartTag) && !HasMarker(HeaderLine(h), EndTag) &&
    !HasMarker(h.pageContent, StartTag) && !HasMarker(h.pageContent, EndTag)
  }

  lemma RenderBlockLines(h: Hit)
    ensures RenderBlock(h) ==
      Lines4(HeaderLine(h), StartMarker(h.page + 1), h.pageContent, EndMarker(h.page + 1))
  {
  }

  lemma StartPass(h: Hit)
    requires CleanHit(h)
    ensures RemoveMarkers(RenderBlock(h), StartTag) ==
      Lines4(HeaderLine(h), "", h.pageContent, EndMarker(h.page + 1))
  {
    SourceTags();
    var n := h.page + 1;
    RenderBlockLines(h);
    RemoveMarkersLines4(HeaderLine(h), StartMarker(n), h.pageContent, EndMarker(n), StartTag);
    RemoveMarkersIdentity(HeaderLine(h), StartTag);
    RemoveMarkersIdentity(h.pageContent, StartTag);
    WrittenMarkerIsMarker(n, StartTag);
    WrittenMarkerIsMarker(n, EndTag);
    OwnMarkerRemoved(StartMarker(n), StartTag);
    OtherMarkerKept(EndMarker(n), StartTag, EndTag);
  }

  lemma EndPass(h: Hit)
    requires CleanHit(h)
    ensures RemoveMarkers(Lines4(HeaderLine(h), "", h.pageContent, EndMarker(h.page + 1)), EndTag) ==
      Lines4(HeaderLine(h), "", h.pageContent, "")
  {
    SourceTags();
    var n := h.page + 1;
    RemoveMarkersLines4(HeaderLine(h), "", h.pageContent, EndMarker(n), EndTag);
    RemoveMarkersIdentity(HeaderLine(h), EndTag);
    RemoveMarkersIdentity(h.pageContent, EndTag);
    WrittenMarkerIsMarker(n, EndTag);
    OwnMarkerRemoved(EndMarker(n), EndTag);
  }

  lemma CleanLinesHaveNoMarker(a: string, c: string, tag: string)
    requires IsTag(tag) && !HasMarker(a, tag) && !HasMarker(c, tag)
    ensures !HasMarker(Lines4(a, "", c, ""), tag)
  {
    RemoveMarkersLines4(a, "", c, "", tag);
    RemoveMarkersIdentity(a, tag);
    RemoveMarkersIdentity(c, tag);
    RemoveMarkersIdentity(Lines4(a, "", c, ""), tag);
  }

  /**
   * The text shown for a block built from a clean hit: its citation line,
   * an empty line, the passage and an empty line, with no marker left.
   */
  lemma StripRenderedBlock(h: Hit)
    requires CleanHit(h)
    ensures StripSnippet(RenderBlock(h)) == Header(h) + "\n" + h.pageContent + "\n\n"
    ensures !HasMarker(StripSnippet(RenderBlock(h)), StartTag)
    ensures !HasMarker(StripSnippet(RenderBlock(h)), EndTag)
  {
    SourceTags();
    StartPass(h);
    EndPass(h);
    var shown := Lines4(HeaderLine(h), "", h.pageContent, "");
    assert shown == Header(h) + "\n" + h.pageContent + "\n\n";
    CleanLinesHaveNoMarker(HeaderLine(h), h.pageContent, StartTag);
    CleanLinesHaveNoMarker(HeaderLine(h), h.pageContent, EndTag);
  }
}
