/** Sidebar removal for one page (`remove_sidebars`): elements are grouped by
    horizontal span; a group of at least three elements that starts the page
    at its leftmost edge, or ends one element before the end of the page at
    its rightmost edge, and whose text is all capitals, digits, whitespace and
    commas, is a sidebar.  Its elements are removed, and so is one neighbouring
    page-number caption when there is one. */
module Sidebars {
  import opened Results
  import opened Seqs
  import opened Text
  import opened Layout

  /** The initial values of the running minimum and maximum in the Python code. */
  const MinXStart := 99999999
  const MaxXStart := 0

  /** The grouping key of an element: its (left, right) x edges. */
  type Span = (int, int)

  function SpanOf(e: Element): Span
  {
    (e.xl, e.xr)
  }

  function Spans(s: seq<Element>): set<Span>
  {
    set i | 0 <= i < |s| :: SpanOf(s[i])
  }

  /** The page's leftmost edge, folded from `MinXStart`. */
  function MinX(s: seq<Element>): (m: int)
    ensures m <= MinXStart
    ensures forall i :: 0 <= i < |s| ==> m <= s[i].xl
    ensures m == MinXStart || exists i :: 0 <= i < |s| && m == s[i].xl
  {
    if |s| == 0 then MinXStart
    else
      var m := MinX(s[..|s| - 1]);
      assert forall i :: 0 <= i < |s| - 1 ==> s[..|s| - 1][i] == s[i];
      if s[|s| - 1].xl < m then s[|s| - 1].xl else m
  }

  /** The page's rightmost edge, folded from `MaxXStart`. */
  function MaxX(s: seq<Element>): (m: int)
    ensures m >= MaxXStart
    ensures forall i :: 0 <= i < |s| ==> s[i].xr <= m
    ensures m == MaxXStart || exists i :: 0 <= i < |s| && m == s[i].xr
  {
    if |s| == 0 then MaxXStart
    else
      var m := MaxX(s[..|s| - 1]);
      assert forall i :: 0 <= i < |s| - 1 ==> s[..|s| - 1][i] == s[i];
      if s[|s| - 1].xr > m then s[|s| - 1].xr else m
  }

  /** The members of the span group `sp`, in page order. */
  function Group(s: seq<Element>, sp: Span): seq<Element>
  {
    Filter(s, SameSpan(sp))
  }

  function SameSpan(sp: Span): Element -> bool
  {
    (e: Element) => SpanOf(e) == sp
  }

  /** The position the Python code's id-to-index dictionary gives `id`: since a
      later entry overwrites an earlier one, the last index carrying it. */
  function IdIndex(s: seq<Element>, id: string): (r: nat)
    requires exists i :: 0 <= i < |s| && s[i].id == id
    ensures r < |s| && s[r].id == id
    ensures forall j :: r < j < |s| ==> s[j].id != id
  {
    if s[|s| - 1].id == id then |s| - 1
    else
      var k :| 0 <= k < |s| && s[k].id == id;
      assert s[..|s| - 1][k].id == id;
      IdIndex(s[..|s| - 1], id)
  }

  /** `"".join(map(str, es))`; an element's string form is its text. */
  function ConcatTexts(es: seq<Element>): string
  {
    if |es| == 0 then "" else es[0].text + ConcatTexts(es[1..])
  }

  /** The group's first member is the first element of the page and the group
      sits at the page's leftmost edge. */
  predicate OnLeft(s: seq<Element>, sp: Span)
    requires |Group(s, sp)| > 0
  {
    var g := Group(s, sp);
    IdIndex(s, g[0].id) == 0 && sp.0 == MinX(s)
  }

  /** The group's last member is the second-to-last element of the page and
      the group sits at the page's rightmost edge. */
  predicate OnRight(s: seq<Element>, sp: Span)
    requires |Group(s, sp)| > 0
  {
    var g := Group(s, sp);
    IdIndex(s, g[|g| - 1].id) == |s| - 2 && sp.1 == MaxX(s)
  }

  /** `sp` is the span of some element of the page and its group meets all
      three conditions of the Python code's sidebar test. */
  predicate IsSidebar(s: seq<Element>, sp: Span)
  {
    var g := Group(s, sp);
    && sp in Spans(s)
    && |g| >= 3
    && (OnLeft(s, sp) || OnRight(s, sp))
    && IsSidebarText(ConcatTexts(g))
  }

  /** Index of the element inspected as the sidebar's page-number caption:
      the one after the group's last member for a left sidebar (left wins
      when both hold), otherwise the page's last element.  It is `|s|`, past
      the end, when a left sidebar runs to the end of the page. */
  function CaptionIndex(s: seq<Element>, sp: Span): (k: nat)
    requires IsSidebar(s, sp)
    ensures k <= |s|
  {
    var g := Group(s, sp);
    if OnLeft(s, sp) then IdIndex(s, g[|g| - 1].id) + 1 else |s| - 1
  }

  /** An uncategorized element whose stripped text is alphanumeric. */
  predicate IsCaption(e: Element)
  {
    e.category == UncategorizedText && IsAlnum(Strip(e.text))
  }

  /** No sidebar sends the caption check past the end of the page. */
  predicate CaptionsInRange(s: seq<Element>)
  {
    forall sp :: sp in Spans(s) && IsSidebar(s, sp) ==> CaptionIndex(s, sp) < |s|
  }

  /** The ids marked for removal: every member of every sidebar group, and
      each sidebar's caption when it looks like a page number. */
  function SidebarIds(s: seq<Element>): set<string>
  {
    MemberIds(s) + CaptionIds(s)
  }

  /** The ids of the members of sidebar groups. */
  function MemberIds(s: seq<Element>): set<string>
  {
    set i | 0 <= i < |s| && IsSidebar(s, SpanOf(s[i])) :: s[i].id
  }

  /** Position `i` is where the caption check of some sidebar looks. */
  predicate CaptionSlot(s: seq<Element>, i: int)
  {
    exists sp :: sp in Spans(s) && IsSidebar(s, sp) && CaptionIndex(s, sp) == i
  }

  /** The ids of the page-number captions next to sidebars: the elements
      that look like page numbers where some sidebar's caption check looks. */
  function CaptionIds(s: seq<Element>): set<string>
  {
    set i | 0 <= i < |s| && CaptionSlot(s, i) && IsCaption(s[i]) :: s[i].id
  }

  /** `remove_sidebars(elements)`. */
  function RemoveSidebars(s: seq<Element>): (r: Result<seq<Element>, ChunkError>)
    ensures |s| == 0 ==> r == Success(s)
    ensures r.Failure? <==>
              exists sp :: IsSidebar(s, sp) && OnLeft(s, sp)
                           && IdIndex(s, Group(s, sp)[|Group(s, sp)| - 1].id) == |s| - 1
    ensures r.Failure? ==> r.error == CaptionOutOfRange
    ensures r.Success? ==> IsSubsequence(r.value, s)
    ensures r.Success? ==> CaptionsInRange(s)
                           && forall i :: 0 <= i < |s| ==> (s[i] in r.value <==> s[i].id !in SidebarIds(s))
    ensures r.Success? ==>
              forall e :: multiset(r.value)[e] == if e.id in SidebarIds(s) then 0 else multiset(s)[e]
  {
    if |s| == 0 then Success(s)
    else if !CaptionsInRange(s) then Failure(CaptionOutOfRange)
    else
      var ids := SidebarIds(s);
      UnmarkedKept(s, ids);
      Success(Filter(s, Unmarked(ids)))
  }

  /** Dropping the marked ids keeps, in order and with every copy, exactly
      the elements whose id is unmarked. */
  lemma UnmarkedKept(s: seq<Element>, ids: set<string>)
    ensures IsSubsequence(Filter(s, Unmarked(ids)), s)
    ensures forall i :: 0 <= i < |s| ==> (s[i] in Filter(s, Unmarked(ids)) <==> s[i].id !in ids)
    ensures forall e :: multiset(Filter(s, Unmarked(ids)))[e] == if e.id in ids then 0 else multiset(s)[e]
  {
    FilterIsSubsequence(s, Unmarked(ids));
    FilterCounts(s, Unmarked(ids));
  }

  /** The list comprehension's test `e.id not in sidebars_elements`. */
  function Unmarked(ids: set<string>): Element -> bool
  {
    (e: Element) => e.id !in ids
  }

  /** An empty list, or a page of one or two elements, comes back unchanged:
      no group can reach three members. */
  lemma SmallPageUnchanged(s: seq<Element>)
    requires |s| < 3
    ensures RemoveSidebars(s) == Success(s)
  {
    forall sp | sp in Spans(s)
      ensures !IsSidebar(s, sp)
    {
      assert |Group(s, sp)| <= |s|;
    }
    if |s| > 0 {
      var ids := SidebarIds(s);
      assert forall i :: 0 <= i < |s| ==> s[i].id !in ids;
      FilterKeepsAll(s, Unmarked(ids));
    }
  }

  /** Every element carries its own id (the parser's ids are unique). */
  predicate DistinctIds(s: seq<Element>)
  {
    forall i, j :: 0 <= i < j < |s| ==> s[i].id != s[j].id
  }

  lemma IdIndexIsPosition(s: seq<Element>, i: int)
    requires DistinctIds(s) && 0 <= i < |s|
    ensures IdIndex(s, s[i].id) == i
  {
  }

  /** With unique ids, a group is "on the left" exactly when the page's first
      element belongs to it and its left edge is the page's leftmost. */
  lemma OnLeftMeansFirstElement(s: seq<Element>, sp: Span)
    requires DistinctIds(s) && |Group(s, sp)| > 0
    ensures OnLeft(s, sp) <==> SpanOf(s[0]) == sp && sp.0 == MinX(s)
  {
    var g := Group(s, sp);
    if SpanOf(s[0]) == sp {
      assert g[0] == s[0];
      IdIndexIsPosition(s, 0);
    } else {
      assert g[0] in s;
      var j :| 0 <= j < |s| && s[j] == g[0];
      IdIndexIsPosition(s, j);
      assert j != 0;
    }
  }

  /** With unique ids, a group is "on the right" exactly when the page's
      second-to-last element is its last member (so the page's last element
      is not a member) and its right edge is the page's rightmost. */
  lemma OnRightMeansSecondToLast(s: seq<Element>, sp: Span)
    requires DistinctIds(s) && |Group(s, sp)| > 0
    ensures OnRight(s, sp) <==>
              && |s| >= 2 && SpanOf(s[|s| - 2]) == sp && SpanOf(s[|s| - 1]) != sp
              && sp.1 == MaxX(s)
  {
    LastMemberPosition(s, sp);
  }

  /** Where the group's last member sits, by the span of the page's last two
      elements. */
  lemma LastMemberPosition(s: seq<Element>, sp: Span)
    requires DistinctIds(s) && |Group(s, sp)| > 0
    ensures var g := Group(s, sp);
            IdIndex(s, g[|g| - 1].id) == |s| - 2 <==>
              |s| >= 2 && SpanOf(s[|s| - 2]) == sp && SpanOf(s[|s| - 1]) != sp
  {
    var g := Group(s, sp);
    var n := |s|;
    var last := g[|g| - 1];
    if SpanOf(s[n - 1]) == sp {
      GroupEndsAtLast(s, sp);
      IdIndexIsPosition(s, n - 1);
    } else if n >= 2 && SpanOf(s[n - 2]) == sp {
      GroupEndsAtSecondToLast(s, sp);
      IdIndexIsPosition(s, n - 2);
    } else if n >= 2 {
      GroupEndsEarlier(s, sp);
      LastMemberEarlier(s, sp, last);
    }
  }

  lemma GroupEndsAtLast(s: seq<Element>, sp: Span)
    requires |s| > 0 && SpanOf(s[|s| - 1]) == sp
    ensures var g := Group(s, sp); |g| > 0 && g[|g| - 1] == s[|s| - 1]
  {
    FilterLast(s, SameSpan(sp));
  }

  lemma GroupEndsAtSecondToLast(s: seq<Element>, sp: Span)
    requires |s| >= 2 && SpanOf(s[|s| - 1]) != sp && SpanOf(s[|s| - 2]) == sp
    ensures var g := Group(s, sp); |g| > 0 && g[|g| - 1] == s[|s| - 2]
  {
    var n := |s|;
    FilterLast(s, SameSpan(sp));
    var front := s[..n - 1];
    FilterLast(front, SameSpan(sp));
  }

  lemma GroupEndsEarlier(s: seq<Element>, sp: Span)
    requires |s| >= 2 && SpanOf(s[|s| - 1]) != sp && SpanOf(s[|s| - 2]) != sp
    ensures Group(s, sp) == Filter(s[..|s| - 2], SameSpan(sp))
  {
    var n := |s|;
    FilterLast(s, SameSpan(sp));
    var front := s[..n - 1];
    FilterLast(front, SameSpan(sp));
    assert front[..n - 2] == s[..n - 2];
  }

  lemma LastMemberEarlier(s: seq<Element>, sp: Span, last: Element)
    requires DistinctIds(s) && |s| >= 2
    requires last in Filter(s[..|s| - 2], SameSpan(sp))
    ensures IdIndex(s, last.id) < |s| - 2
  {
    var j := EarlierPosition(s[..|s| - 2], sp, last);
    assert s[j] == last;
    IdIndexIsPosition(s, j);
  }

  lemma EarlierPosition(t: seq<Element>, sp: Span, last: Element) returns (j: nat)
    requires last in Filter(t, SameSpan(sp))
    ensures j < |t| && t[j] == last
  {
    var members := Filter(t, SameSpan(sp));
    var k :| 0 <= k < |members| && members[k] == last;
    assert last in t;
    j :| 0 <= j < |t| && t[j] == last;
  }


  /** With unique ids, an element is removed exactly when it belongs to a
      sidebar group, or it is a caption-like element sitting where some
      sidebar's caption check looks. */
  lemma RemovedElements(s: seq<Element>, i: int)
    requires DistinctIds(s) && 0 <= i < |s|
    ensures s[i].id in SidebarIds(s) <==>
              || IsSidebar(s, SpanOf(s[i]))
              || (IsCaption(s[i])
                  && exists sp :: sp in Spans(s) && IsSidebar(s, sp) && CaptionIndex(s, sp) == i)
  {
    MemberIdsByPosition(s, i);
    CaptionIdsByPosition(s, i);
  }

  lemma MemberIdsByPosition(s: seq<Element>, i: int)
    requires DistinctIds(s) && 0 <= i < |s|
    ensures s[i].id in MemberIds(s) <==> IsSidebar(s, SpanOf(s[i]))
  {
    if s[i].id in MemberIds(s) {
      var j :| 0 <= j < |s| && IsSidebar(s, SpanOf(s[j])) && s[j].id == s[i].id;
      assert j == i;
    }
  }

  lemma CaptionIdsByPosition(s: seq<Element>, i: int)
    requires DistinctIds(s) && 0 <= i < |s|
    ensures s[i].id in CaptionIds(s) <==> IsCaption(s[i]) && CaptionSlot(s, i)
  {
    if s[i].id in CaptionIds(s) {
      var j :| 0 <= j < |s| && CaptionSlot(s, j) && IsCaption(s[j]) && s[j].id == s[i].id;
      assert j == i;
    }
  }


}
