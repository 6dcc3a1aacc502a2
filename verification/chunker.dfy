/** Sliding-window chunking (`create_chunk_and_metadatas`) and the document
    pipeline (`get_chunks`): each page is cleared of sidebars, its surviving
    elements are numbered by position, and a window of `window` elements is
    cut at every `stride`-th position; the pages' chunk lists are concatenated
    in the order their page numbers first appear. */
module Chunker {
  import opened Results
  import opened Seqs
  import opened Layout
  import opened Sidebars
  import opened Annotations

  /** The default arguments `stride=2, window=5`, the ones `get_chunks` uses. */
  const DefaultStride := 2
  const DefaultWindow := 5

  /** Python's clamping of a slice end `j` for a list of length `n`
      (a negative end counts from the back). */
  function SliceEnd(j: int, n: nat): (r: nat)
    ensures r <= n
    ensures 0 <= j <= n ==> r == j
    ensures j > n ==> r == n
  {
    if j < 0 then (if j + n < 0 then 0 else j + n)
    else if j > n then n
    else j
  }

  /** The filtered page with `metadata.num` set to each element's position. */
  function Numbered(page: seq<Element>): (r: seq<SourceElement>)
    ensures |r| == |page|
    ensures forall k :: 0 <= k < |page| ==> r[k] == SourceElement(page[k], k)
  {
    seq(|page|, k requires 0 <= k < |page| => SourceElement(page[k], k))
  }

  /** The chunk for `page_elements[i : i + window]`. */
  function WindowAt(numbered: seq<SourceElement>, i: nat, window: int): Chunk
    requires i <= |numbered|
  {
    var end := SliceEnd(i + window, |numbered|);
    var w := if end <= i then [] else numbered[i..end];
    Chunk(Join(SourceTexts(w), "\n"), w)
  }

  /** `range(start, stop, step)` for a positive step. */
  function Range(start: nat, stop: nat, step: int): (r: seq<nat>)
    requires step >= 1
    ensures forall k :: 0 <= k < |r| ==> start <= r[k] < stop
    decreases stop - start
  {
    if start >= stop then [] else [start] + Range(start + step, stop, step)
  }

  /** `c` is the ceiling of `n / d`, the length of `range(0, n, d)`. */
  predicate IsCeilDiv(c: nat, n: nat, d: int)
  {
    c * d >= n && (c - 1) * d < n
  }

  lemma MulStep(k: int, d: int)
    ensures k * d == (k - 1) * d + d
  {
  }

  /** The range has ceil((stop - start) / step) offsets. */
  lemma {:induction false} RangeLength(start: nat, stop: nat, step: int)
    requires step >= 1 && start <= stop
    ensures IsCeilDiv(|Range(start, stop, step)|, stop - start, step)
    decreases stop - start
  {
    if start < stop {
      var rest := Range(start + step, stop, step);
      assert Range(start, stop, step) == [start] + rest;
      if start + step >= stop {
        assert rest == [];
      } else {
        RangeLength(start + step, stop, step);
        MulStep(|rest| + 1, step);
        MulStep(|rest|, step);
      }
    }
  }

  /** The `k`-th offset of the range is `start + k * step`. */
  lemma {:induction false} RangeAt(start: nat, stop: nat, step: int, k: nat)
    requires step >= 1 && k < |Range(start, stop, step)|
    ensures Range(start, stop, step)[k] == start + k * step
    decreases k
  {
    var rest := Range(start + step, stop, step);
    assert Range(start, stop, step) == [start] + rest;
    if k > 0 {
      RangeAt(start + step, stop, step, k - 1);
      MulStep(k, step);
    }
  }

  /** The loop of `create_chunk_and_metadatas` over an already filtered page:
      one window per offset of `range(0, len(page), stride)`. */
  function PageChunks(kept: seq<Element>, stride: int, window: int): (cs: seq<Chunk>)
    requires stride >= 1
    ensures |cs| == |Range(0, |kept|, stride)|
    ensures forall k, t :: 0 <= k < |cs| && 0 <= t < |cs[k].sourceElements| ==>
              cs[k].sourceElements[t].element in kept
  {
    var offsets := Range(0, |kept|, stride);
    var cs := seq(|offsets|, k requires 0 <= k < |offsets| => WindowAt(Numbered(kept), offsets[k], window));
    forall k | 0 <= k < |offsets|
      ensures forall t :: 0 <= t < |cs[k].sourceElements| ==> cs[k].sourceElements[t].element in kept
    {
      WindowAtContents(kept, offsets[k], window);
    }
    cs
  }

  /** Chunk `k` is the window at the `k`-th offset of the range. */
  lemma WindowAtOffset(kept: seq<Element>, stride: int, window: int, k: nat)
    requires stride >= 1 && k < |PageChunks(kept, stride, window)|
    ensures IsWindow(kept, Range(0, |kept|, stride)[k], window, PageChunks(kept, stride, window)[k])
  {
    WindowAtContents(kept, Range(0, |kept|, stride)[k], window);
  }

  /** A filtered page of `n` elements yields ceil(n / stride) chunks. */
  lemma ChunkCount(kept: seq<Element>, stride: int, window: int)
    requires stride >= 1
    ensures IsCeilDiv(|PageChunks(kept, stride, window)|, |kept|, stride)
  {
    RangeLength(0, |kept|, stride);
  }

  /** `create_chunk_and_metadatas(page_elements, stride, window)`: the page is
      cleared of sidebars, then one chunk is cut per offset `0, stride, ...`.
      A zero stride fails like `range()`; a negative one yields no chunk. */
  function CreateChunkAndMetadatas(page: seq<Element>, stride: int, window: int): (r: Result<seq<Chunk>, ChunkError>)
    ensures r.Failure? <==> RemoveSidebars(page).Failure? || stride == 0
    ensures RemoveSidebars(page).Failure? ==> r == Failure(CaptionOutOfRange)
    ensures r.Success? && stride < 0 ==> r.value == []
    ensures r.Success? && stride >= 1 ==> IsCeilDiv(|r.value|, |RemoveSidebars(page).value|, stride)
    ensures r.Success? ==> RemoveSidebars(page).Success?
    ensures r.Success? && stride >= 1 ==> r.value == PageChunks(RemoveSidebars(page).value, stride, window)
    ensures r.Success? ==> forall k, t :: 0 <= k < |r.value| && 0 <= t < |r.value[k].sourceElements| ==>
                             r.value[k].sourceElements[t].element in RemoveSidebars(page).value
  {
    var kept :- RemoveSidebars(page);
    if stride == 0 then Failure(ZeroStride)
    else if stride < 0 then Success([])
    else
      ChunkCount(kept, stride, window);
      Success(PageChunks(kept, stride, window))
  }

  /** Chunk `k` of `create_chunk_and_metadatas` is the window of the
      sidebar-free page starting at element `k * stride`. */
  lemma ChunkIsWindow(page: seq<Element>, stride: int, window: int, k: nat)
    requires CreateChunkAndMetadatas(page, stride, window).Success? && stride >= 1
    requires k < |CreateChunkAndMetadatas(page, stride, window).value|
    ensures IsWindow(RemoveSidebars(page).value, k * stride, window, CreateChunkAndMetadatas(page, stride, window).value[k])
  {
    var kept := RemoveSidebars(page).value;
    WindowOfChunks(kept, stride, window, k, CreateChunkAndMetadatas(page, stride, window).value);
  }

  lemma WindowOfChunks(kept: seq<Element>, stride: int, window: int, k: nat, cs: seq<Chunk>)
    requires stride >= 1 && cs == PageChunks(kept, stride, window) && k < |cs|
    ensures IsWindow(kept, k * stride, window, cs[k])
  {
    WindowContents(kept, stride, window, k);
  }

  /** No sidebar member and no sidebar caption of the page reaches a chunk;
      every snapshot is an element of the page. */
  lemma NoSidebarInChunks(page: seq<Element>, stride: int, window: int)
    requires CreateChunkAndMetadatas(page, stride, window).Success?
    ensures var cs := CreateChunkAndMetadatas(page, stride, window).value;
            forall k, t :: 0 <= k < |cs| && 0 <= t < |cs[k].sourceElements| ==>
              && cs[k].sourceElements[t].element in page
              && cs[k].sourceElements[t].element.id !in SidebarIds(page)
  {
    var kept := RemoveSidebars(page).value;
    SubsequenceMembers(kept, page);
    KeptAreUnmarked(page, kept);
  }

  /** Every element that survives sidebar removal has an unmarked id. */
  lemma KeptAreUnmarked(page: seq<Element>, kept: seq<Element>)
    requires RemoveSidebars(page) == Success(kept)
    ensures forall e :: e in kept ==> e.id !in SidebarIds(page)
  {
    SubsequenceMembers(kept, page);
    forall e | e in kept
      ensures e.id !in SidebarIds(page)
    {
      var i :| 0 <= i < |page| && page[i] == e;
    }
  }

  /** `c` is the window of the filtered page `kept` starting at element
      `start`: it runs to the slice end `start + window` clamped to the page
      (so a window near the end may be shorter), its snapshots are those
      elements, in order, numbered by their position in the page, and its
      text is their texts joined by newlines. */
  predicate IsWindow(kept: seq<Element>, start: int, window: int, c: Chunk)
  {
    var end := SliceEnd(start + window, |kept|);
    && 0 <= start < |kept|
    && |c.sourceElements| == (if end <= start then 0 else end - start)
    && start + |c.sourceElements| <= |kept|
    && (forall t :: 0 <= t < |c.sourceElements| ==>
          c.sourceElements[t] == SourceElement(kept[start + t], start + t))
    && c.txt == Join(Texts(kept[start..start + |c.sourceElements|]), "\n")
  }

  lemma WindowAtContents(kept: seq<Element>, start: nat, window: int)
    requires start < |kept|
    ensures IsWindow(kept, start, window, WindowAt(Numbered(kept), start, window))
  {
    var numbered := Numbered(kept);
    var end := SliceEnd(start + window, |kept|);
    var stop := if end <= start then start else end;
    var w := numbered[start..stop];
    WindowAtSlice(numbered, start, window);
    NumberedSlice(kept, start, stop);
  }

  lemma WindowAtSlice(numbered: seq<SourceElement>, start: nat, window: int)
    requires start <= |numbered|
    ensures var end := SliceEnd(start + window, |numbered|);
            var w := numbered[start..if end <= start then start else end];
            WindowAt(numbered, start, window) == Chunk(Join(SourceTexts(w), "\n"), w)
  {
    var end := SliceEnd(start + window, |numbered|);
    if end <= start {
      assert numbered[start..start] == [];
    }
  }

  /** A slice of the numbered page: each snapshot numbered by its position,
      and the texts of the elements. */
  lemma NumberedSlice(kept: seq<Element>, i: nat, j: nat)
    requires i <= j <= |kept|
    ensures var w := Numbered(kept)[i..j];
            && (forall t :: 0 <= t < |w| ==> w[t] == SourceElement(kept[i + t], i + t))
            && SourceTexts(w) == Texts(kept[i..j])
  {
  }

  /** Chunk `k` of a filtered page is the window starting at element
      `k * stride`. */
  lemma WindowContents(kept: seq<Element>, stride: int, window: int, k: nat)
    requires stride >= 1 && k < |PageChunks(kept, stride, window)|
    ensures IsWindow(kept, k * stride, window, PageChunks(kept, stride, window)[k])
  {
    WindowAtOffset(kept, stride, window, k);
    RangeAt(0, |kept|, stride, k);
  }

  /** Twelve kept elements with the default stride and window make six
      chunks starting at elements 0, 2, 4, 6, 8 and 10; the last holds only
      the final two elements. */
  lemma TwelveElementsMakeSixChunks(kept: seq<Element>)
    requires |kept| == 12
    ensures var cs := PageChunks(kept, DefaultStride, DefaultWindow);
            && |cs| == 6
            && (forall k :: 0 <= k < 6 ==> cs[k].sourceElements[0] == SourceElement(kept[2 * k], 2 * k))
            && cs[5].sourceElements == [SourceElement(kept[10], 10), SourceElement(kept[11], 11)]
  {
    var cs := PageChunks(kept, DefaultStride, DefaultWindow);
    SixChunks(kept);
    forall k | 0 <= k < 6
      ensures cs[k].sourceElements[0] == SourceElement(kept[2 * k], 2 * k)
    {
      ChunkStartsAtOffset(kept, k);
    }
    LastOfSixChunks(kept);
  }

  lemma SixChunks(kept: seq<Element>)
    requires |kept| == 12
    ensures |PageChunks(kept, DefaultStride, DefaultWindow)| == 6
  {
    ChunkCount(kept, DefaultStride, DefaultWindow);
    var c := |PageChunks(kept, DefaultStride, DefaultWindow)|;
    assert c * 2 >= 12 && (c - 1) * 2 < 12;
  }

  lemma ChunkStartsAtOffset(kept: seq<Element>, k: nat)
    requires k < |PageChunks(kept, DefaultStride, DefaultWindow)|
    ensures var c := PageChunks(kept, DefaultStride, DefaultWindow)[k];
            2 * k < |kept| && |c.sourceElements| > 0 && c.sourceElements[0] == SourceElement(kept[2 * k], 2 * k)
  {
    var c := PageChunks(kept, DefaultStride, DefaultWindow)[k];
    WindowContents(kept, DefaultStride, DefaultWindow, k);
    assert k * DefaultStride == 2 * k;
    WindowStart(kept, 2 * k, DefaultWindow, c);
  }

  /** A window with a positive width starting inside the page holds at least
      its first element. */
  lemma WindowStart(kept: seq<Element>, start: nat, window: int, c: Chunk)
    requires window >= 1 && IsWindow(kept, start, window, c)
    ensures start < |kept| && |c.sourceElements| > 0
    ensures c.sourceElements[0] == SourceElement(kept[start], start)
  {
  }

  lemma LastOfSixChunks(kept: seq<Element>)
    requires |kept| == 12 && |PageChunks(kept, DefaultStride, DefaultWindow)| == 6
    ensures PageChunks(kept, DefaultStride, DefaultWindow)[5].sourceElements
            == [SourceElement(kept[10], 10), SourceElement(kept[11], 11)]
  {
    WindowContents(kept, DefaultStride, DefaultWindow, 5);
  }


  /** Every position `j` of `[start, stop)` lies in the step following some
      offset of the range. */
  lemma {:induction false} RangeCovers(start: nat, stop: nat, step: int, j: nat)
    requires step >= 1 && start <= j < stop
    ensures exists k :: 0 <= k < |Range(start, stop, step)|
                        && Range(start, stop, step)[k] <= j < Range(start, stop, step)[k] + step
    decreases stop - start
  {
    var rest := Range(start + step, stop, step);
    assert Range(start, stop, step) == [start] + rest;
    if j >= start + step {
      RangeCovers(start + step, stop, step, j);
      var k :| 0 <= k < |rest| && rest[k] <= j < rest[k] + step;
      assert Range(start, stop, step)[k + 1] == rest[k];
    } else {
      assert Range(start, stop, step)[0] == start;
    }
  }

  /** With `window >= stride` no element is skipped: element `j` of the
      filtered page, numbered `j`, lies in some chunk. */
  lemma Coverage(kept: seq<Element>, stride: int, window: int, j: nat)
    requires 1 <= stride <= window && j < |kept|
    ensures var cs := PageChunks(kept, stride, window);
            exists k :: 0 <= k < |cs| && SourceElement(kept[j], j) in cs[k].sourceElements
  {
    var cs := PageChunks(kept, stride, window);
    var offsets := Range(0, |kept|, stride);
    RangeCovers(0, |kept|, stride, j);
    var k :| 0 <= k < |offsets| && offsets[k] <= j < offsets[k] + stride;
    WindowAtOffset(kept, stride, window, k);
    assert cs[k].sourceElements[j - offsets[k]] == SourceElement(kept[j], j);
  }

  /** With `window >= stride`, two consecutive full windows share exactly
      `window - stride` elements: the tail of one is the head of the next. */
  lemma Overlap(kept: seq<Element>, stride: int, window: int, k: nat)
    requires 1 <= stride <= window
    requires k + 1 < |PageChunks(kept, stride, window)|
    requires (k + 1) * stride + window <= |kept|
    ensures var cs := PageChunks(kept, stride, window);
            && |cs[k].sourceElements| == window == |cs[k + 1].sourceElements|
            && cs[k].sourceElements[stride..] == cs[k + 1].sourceElements[..window - stride]
  {
    var cs := PageChunks(kept, stride, window);
    var a := k * stride;
    var b := (k + 1) * stride;
    MulStep(k + 1, stride);
    assert b == a + stride;
    WindowContents(kept, stride, window, k);
    WindowContents(kept, stride, window, k + 1);
    assert IsWindow(kept, a, window, cs[k]);
    assert IsWindow(kept, a + stride, window, cs[k + 1]);
    OverlapAt(kept, a, stride, window, cs[k], cs[k + 1]);
  }

  lemma OverlapAt(kept: seq<Element>, a: nat, stride: int, window: int, c1: Chunk, c2: Chunk)
    requires 1 <= stride <= window && a + stride + window <= |kept|
    requires IsWindow(kept, a, window, c1) && IsWindow(kept, a + stride, window, c2)
    ensures |c1.sourceElements| == window == |c2.sourceElements|
    ensures c1.sourceElements[stride..] == c2.sourceElements[..window - stride]
  {
    forall t | 0 <= t < window - stride
      ensures c1.sourceElements[stride..][t] == c2.sourceElements[..window - stride][t]
    {
      assert c1.sourceElements[stride + t] == SourceElement(kept[a + stride + t], a + stride + t);
    }
  }

  /** When no element text contains a newline, a chunk's text splits back
      into its elements' texts. */
  lemma ChunkTextSplits(kept: seq<Element>, stride: int, window: int, k: nat)
    requires 1 <= stride && 1 <= window && k < |PageChunks(kept, stride, window)|
    requires forall i :: 0 <= i < |kept| ==> '\n' !in kept[i].text
    ensures var c := PageChunks(kept, stride, window)[k];
            Split(c.txt, '\n') == SourceTexts(c.sourceElements)
  {
    var c := PageChunks(kept, stride, window)[k];
    var start := k * stride;
    WindowContents(kept, stride, window, k);
    WindowStart(kept, start, window, c);
    var es := kept[start..start + |c.sourceElements|];
    WindowTexts(kept, start, window, c);
    NoNewlineInSlice(kept, start, start + |c.sourceElements|);
    JoinedTextsSplit(es);
  }

  lemma WindowTexts(kept: seq<Element>, start: nat, window: int, c: Chunk)
    requires IsWindow(kept, start, window, c)
    ensures SourceTexts(c.sourceElements) == Texts(kept[start..start + |c.sourceElements|])
  {
  }

  lemma NoNewlineInSlice(kept: seq<Element>, i: nat, j: nat)
    requires i <= j <= |kept|
    requires forall k :: 0 <= k < |kept| ==> '\n' !in kept[k].text
    ensures forall k :: 0 <= k < j - i ==> '\n' !in kept[i..j][k].text
  {
  }

  /** Texts without newlines, joined by newlines, split back apart. */
  lemma JoinedTextsSplit(es: seq<Element>)
    requires |es| >= 1
    requires forall k :: 0 <= k < |es| ==> '\n' !in es[k].text
    ensures Split(Join(Texts(es), "\n"), '\n') == Texts(es)
  {
    SplitJoin(Texts(es), '\n');
  }

  /** Page numbers in the order they first appear in the document (the
      insertion order of the Python code's `defaultdict`), each once. */
  function PageOrder(s: seq<Element>): (r: seq<PageNumber>)
    ensures forall a, b :: 0 <= a < b < |r| ==> r[a] != r[b]
    ensures forall i :: 0 <= i < |s| ==> s[i].page in r
    ensures forall k :: 0 <= k < |r| ==> exists i :: 0 <= i < |s| && s[i].page == r[k]
  {
    if |s| == 0 then []
    else
      var r := PageOrder(s[..|s| - 1]);
      assert forall i :: 0 <= i < |s| - 1 ==> s[..|s| - 1][i] == s[i];
      if s[|s| - 1].page in r then r else r + [s[|s| - 1].page]
  }

  /** The index of the first element of page `p`, or `|s|` when the page
      does not occur. */
  function FirstOnPage(s: seq<Element>, p: PageNumber): (i: nat)
    ensures i <= |s|
    ensures i < |s| ==> s[i].page == p
    ensures forall j :: 0 <= j < i ==> s[j].page != p
  {
    if |s| == 0 then 0
    else if s[0].page == p then 0
    else
      assert forall i :: 1 <= i < |s| ==> s[i] == s[1..][i - 1];
      1 + FirstOnPage(s[1..], p)
  }

  lemma FirstOnPageOfPrefix(s: seq<Element>, n: nat, p: PageNumber)
    requires n <= |s| && FirstOnPage(s[..n], p) < n
    ensures FirstOnPage(s[..n], p) == FirstOnPage(s, p)
  {
    var a := FirstOnPage(s[..n], p);
    assert s[..n][a] == s[a];
  }

  /** Pages listed in `pages` start in `s` in list order. */
  predicate ListedByFirstAppearance(s: seq<Element>, pages: seq<PageNumber>)
  {
    forall a, b :: 0 <= a < b < |pages| ==> FirstOnPage(s, pages[a]) < FirstOnPage(s, pages[b])
  }

  /** The pages are listed in order of first appearance: an earlier page in
      the list starts earlier in the document. */
  lemma {:induction false} PageOrderIsFirstAppearance(s: seq<Element>)
    ensures ListedByFirstAppearance(s, PageOrder(s))
  {
    if |s| > 0 {
      var n := |s| - 1;
      var front := s[..n];
      var r0 := PageOrder(front);
      PageOrderIsFirstAppearance(front);
      EarlierPagesKeepFirst(s, n);
      OrderCarriesOver(s, front, r0);
      if s[n].page !in r0 {
        NewPageStartsAtEnd(s, n);
        assert PageOrder(s) == r0 + [s[n].page];
        AppendLaterPage(s, r0, s[n].page);
      }
    }
  }

  lemma OrderCarriesOver(s: seq<Element>, front: seq<Element>, pages: seq<PageNumber>)
    requires ListedByFirstAppearance(front, pages)
    requires forall k :: 0 <= k < |pages| ==> FirstOnPage(s, pages[k]) == FirstOnPage(front, pages[k])
    ensures ListedByFirstAppearance(s, pages)
  {
  }

  lemma AppendLaterPage(s: seq<Element>, pages: seq<PageNumber>, p: PageNumber)
    requires ListedByFirstAppearance(s, pages)
    requires forall k :: 0 <= k < |pages| ==> FirstOnPage(s, pages[k]) < FirstOnPage(s, p)
    ensures ListedByFirstAppearance(s, pages + [p])
  {
    var r := pages + [p];
    forall a, b | 0 <= a < b < |r|
      ensures FirstOnPage(s, r[a]) < FirstOnPage(s, r[b])
    {
      assert r[a] == pages[a];
      if b < |pages| {
        assert r[b] == pages[b];
      }
    }
  }

  lemma EarlierPagesKeepFirst(s: seq<Element>, n: nat)
    requires n == |s| - 1
    ensures forall k :: 0 <= k < |PageOrder(s[..n])| ==>
              FirstOnPage(s, PageOrder(s[..n])[k]) == FirstOnPage(s[..n], PageOrder(s[..n])[k]) < n
  {
    var r0 := PageOrder(s[..n]);
    forall k | 0 <= k < |r0|
      ensures FirstOnPage(s, r0[k]) == FirstOnPage(s[..n], r0[k]) < n
    {
      var i :| 0 <= i < n && s[..n][i].page == r0[k];
      FirstOnPageOfPrefix(s, n, r0[k]);
    }
  }

  lemma NewPageStartsAtEnd(s: seq<Element>, n: nat)
    requires n == |s| - 1 && s[n].page !in PageOrder(s[..n])
    ensures FirstOnPage(s, s[n].page) == n
  {
    var r0 := PageOrder(s[..n]);
    forall i | 0 <= i < n
      ensures s[i].page != s[n].page
    {
      assert s[..n][i].page in r0;
    }
  }

  function OnPage(p: PageNumber): Element -> bool
  {
    (e: Element) => e.page == p
  }

  /** `pages_elements[p]`: the elements of page `p`, in document order. */
  function PageElements(s: seq<Element>, p: PageNumber): seq<Element>
  {
    Filter(s, OnPage(p))
  }

  /** Every snapshot of `c` is an element of `s`, and they all lie on one page. */
  predicate FromOnePage(s: seq<Element>, c: Chunk)
  {
    forall t :: 0 <= t < |c.sourceElements| ==>
      && c.sourceElements[t].element in s
      && c.sourceElements[t].element.page == c.sourceElements[0].element.page
  }

  /** `create_chunk_and_metadatas(page_elements)` for the group of page `p`,
      with the default stride and window. */
  function PageResult(s: seq<Element>, p: PageNumber): Result<seq<Chunk>, ChunkError>
  {
    CreateChunkAndMetadatas(PageElements(s, p), DefaultStride, DefaultWindow)
  }

  /** The chunks of the listed pages, concatenated in list order; the first
      page that fails makes the whole call fail. */
  function ChunkPages(s: seq<Element>, pages: seq<PageNumber>): (r: Result<seq<Chunk>, ChunkError>)
    ensures r.Success? <==> forall p :: p in pages ==> PageResult(s, p).Success?
    ensures r.Failure? ==> r.error == CaptionOutOfRange
    ensures r.Success? ==> forall m :: 0 <= m < |r.value| ==> FromOnePage(s, r.value[m])
  {
    if |pages| == 0 then Success([])
    else
      assert pages == [pages[0]] + pages[1..];
      var first :- PageResult(s, pages[0]);
      var rest :- ChunkPages(s, pages[1..]);
      PageChunksFromOnePage(s, pages[0], first);
      AllFromOnePage(s, first, rest);
      Success(first + rest)
  }

  /** A single page contributes exactly its own chunk list. */
  lemma ChunkPagesOfOnePage(s: seq<Element>, p: PageNumber)
    ensures ChunkPages(s, [p]) == PageResult(s, p)
  {
    assert [p][1..] == [];
    if PageResult(s, p).Success? {
      assert PageResult(s, p).value + [] == PageResult(s, p).value;
    }
  }

  /** A successful run of pages starts with the first page's chunks. */
  lemma ChunkPagesCons(s: seq<Element>, pages: seq<PageNumber>)
    requires |pages| > 0 && ChunkPages(s, pages).Success?
    ensures PageResult(s, pages[0]).Success? && ChunkPages(s, pages[1..]).Success?
    ensures ChunkPages(s, pages).value == PageResult(s, pages[0]).value + ChunkPages(s, pages[1..]).value
  {
  }

  /** Block structure of the `sum(..., [])`: the chunks of two runs of pages
      are the chunks of the first run followed by those of the second. */
  lemma {:induction false} ChunkPagesAppend(s: seq<Element>, a: seq<PageNumber>, b: seq<PageNumber>)
    requires ChunkPages(s, a).Success? && ChunkPages(s, b).Success?
    ensures ChunkPages(s, a + b) == Success(ChunkPages(s, a).value + ChunkPages(s, b).value)
  {
    if |a| == 0 {
      AppendEmpty(b);
      AppendEmpty(ChunkPages(s, b).value);
    } else {
      ChunkPagesCons(s, a);
      ChunkPagesAppend(s, a[1..], b);
      TailOfAppend(a, b);
      ChunkPagesCons(s, a + b);
      AppendAssociates(PageResult(s, a[0]).value, ChunkPages(s, a[1..]).value, ChunkPages(s, b).value);
    }
  }

  /** The chunks cut from one page group come from that page. */
  lemma PageChunksFromOnePage(s: seq<Element>, p: PageNumber, cs: seq<Chunk>)
    requires PageResult(s, p) == Success(cs)
    ensures forall m :: 0 <= m < |cs| ==> FromOnePage(s, cs[m])
  {
    var page := PageElements(s, p);
    forall m, t | 0 <= m < |cs| && 0 <= t < |cs[m].sourceElements|
      ensures cs[m].sourceElements[t].element in s
      ensures cs[m].sourceElements[t].element.page == p
    {
      NoSidebarInChunks(page, DefaultStride, DefaultWindow);
      assert cs[m].sourceElements[t].element in page;
    }
  }

  lemma AllFromOnePage(s: seq<Element>, a: seq<Chunk>, b: seq<Chunk>)
    requires forall m :: 0 <= m < |a| ==> FromOnePage(s, a[m])
    requires forall m :: 0 <= m < |b| ==> FromOnePage(s, b[m])
    ensures forall m :: 0 <= m < |a + b| ==> FromOnePage(s, (a + b)[m])
  {
    forall m | 0 <= m < |a + b|
      ensures FromOnePage(s, (a + b)[m])
    {
      if m >= |a| {
        assert (a + b)[m] == b[m - |a|];
      }
    }
  }

  /** `get_chunks(pdf)` once the external parser has produced `elements`
      (with coordinates already converted): running annotations are removed
      from the whole document, then each page is chunked with the default
      stride and window.  An empty document fails in `remove_annotation`. */
  function GetChunks(elements: seq<Element>): (r: Result<seq<Chunk>, ChunkError>)
    ensures |elements| == 0 ==> r == Failure(EmptyDocument)
    ensures r.Failure? && |elements| > 0 ==> r.error == CaptionOutOfRange
    ensures r.Success? ==>
              forall m :: 0 <= m < |r.value| ==> FromOnePage(RemoveAnnotation(elements).value, r.value[m])
    ensures |elements| > 0 ==>
              var kept := RemoveAnnotation(elements).value;
              (r.Success? <==> forall p :: p in PageOrder(kept) ==> PageResult(kept, p).Success?)
  {
    var kept :- RemoveAnnotation(elements);
    ChunkPages(kept, PageOrder(kept))
  }

  /** A successful run of pages, cut anywhere, is the chunks of the front
      part followed by those of the back part. */
  lemma ChunkPagesSplit(s: seq<Element>, pages: seq<PageNumber>, k: nat)
    requires ChunkPages(s, pages).Success? && k <= |pages|
    ensures ChunkPages(s, pages[..k]).Success? && ChunkPages(s, pages[k..]).Success?
    ensures ChunkPages(s, pages).value == ChunkPages(s, pages[..k]).value + ChunkPages(s, pages[k..]).value
  {
    TakeDrop(pages, k);
    ChunkPagesAppend(s, pages[..k], pages[k..]);
  }

  /** The document's chunks are those of the pages up to any cut point in
      first-appearance order, followed by those of the remaining pages; with
      `ChunkPagesOfOnePage` this pins the result page by page. */
  lemma GetChunksByPages(elements: seq<Element>, k: nat)
    requires GetChunks(elements).Success?
    requires k <= |PageOrder(RemoveAnnotation(elements).value)|
    ensures var kept := RemoveAnnotation(elements).value;
            var pages := PageOrder(kept);
            && ChunkPages(kept, pages[..k]).Success?
            && ChunkPages(kept, pages[k..]).Success?
            && GetChunks(elements).value == ChunkPages(kept, pages[..k]).value + ChunkPages(kept, pages[k..]).value
  {
    var kept := RemoveAnnotation(elements).value;
    ChunkPagesSplit(kept, PageOrder(kept), k);
  }

  /** The total size of the page groups of `pages`. */
  function GroupSizes(s: seq<Element>, pages: seq<PageNumber>): nat
  {
    if |pages| == 0 then 0 else |PageElements(s, pages[0])| + GroupSizes(s, pages[1..])
  }

  function Occurrences(pages: seq<PageNumber>, p: PageNumber): nat
  {
    if |pages| == 0 then 0 else (if pages[0] == p then 1 else 0) + Occurrences(pages[1..], p)
  }

  lemma {:induction false} GroupSizesSnoc(s: seq<Element>, e: Element, pages: seq<PageNumber>)
    ensures GroupSizes(s + [e], pages) == GroupSizes(s, pages) + Occurrences(pages, e.page)
  {
    if |pages| > 0 {
      var t := s + [e];
      assert t[..|t| - 1] == s && t[|t| - 1] == e;
      FilterLast(t, OnPage(pages[0]));
      GroupSizesSnoc(s, e, pages[1..]);
    }
  }

  lemma {:induction false} OccursOnce(pages: seq<PageNumber>, p: PageNumber)
    requires forall a, b :: 0 <= a < b < |pages| ==> pages[a] != pages[b]
    requires p in pages
    ensures Occurrences(pages, p) == 1
  {
    if pages[0] == p {
      OccursNever(pages[1..], p);
    } else {
      OccursOnce(pages[1..], p);
    }
  }

  lemma {:induction false} OccursNever(pages: seq<PageNumber>, p: PageNumber)
    requires p !in pages
    ensures Occurrences(pages, p) == 0
  {
    if |pages| > 0 {
      OccursNever(pages[1..], p);
    }
  }

  lemma {:induction false} GroupSizesCover(s: seq<Element>, pages: seq<PageNumber>)
    requires forall a, b :: 0 <= a < b < |pages| ==> pages[a] != pages[b]
    requires forall i :: 0 <= i < |s| ==> s[i].page in pages
    ensures GroupSizes(s, pages) == |s|
  {
    if |s| == 0 {
      EmptyGroups(pages);
    } else {
      var n := |s| - 1;
      assert s == s[..n] + [s[n]];
      GroupSizesCover(s[..n], pages);
      GroupSizesSnoc(s[..n], s[n], pages);
      OccursOnce(pages, s[n].page);
    }
  }

  lemma {:induction false} EmptyGroups(pages: seq<PageNumber>)
    ensures GroupSizes([], pages) == 0
  {
    if |pages| > 0 {
      EmptyGroups(pages[1..]);
    }
  }

  /** Grouping by page loses and duplicates nothing: the page groups, taken in
      first-appearance order, hold exactly as many elements as the document. */
  lemma PagesPartition(s: seq<Element>)
    ensures GroupSizes(s, PageOrder(s)) == |s|
  {
    GroupSizesCover(s, PageOrder(s));
  }
}
